/** Building the opcode jump table from the generated, sorted handler table. */
module OpcodeTable {
  import opened Bitwise
  import opened Powers

  /** A handler with its cycle counts. */
  datatype Target = Target(handler: nat, cycles: seq<nat>)

  type Opcode = n: nat | n < 0x1_0000

  datatype Entry = Entry(mask: Opcode, match_: Opcode, target: Target)

  predicate Matches(e: Entry, o: nat) {
    And(o, e.mask) == e.match_
  }

  /** The last matching entry's target, or `illegal`. */
  function LastMatch(table: seq<Entry>, o: nat, illegal: Target): Target {
    if table == [] then illegal
    else if Matches(table[|table| - 1], o) then table[|table| - 1].target
    else LastMatch(table[..|table| - 1], o, illegal)
  }

  // ---- the generator's order -----------------------------------------------------------------

  /** Set bits of a 16-bit value. */
  function NumBits(v: nat): nat {
    if v == 0 then 0 else v % 2 + NumBits(v / 2)
  }

  /** The comparison function: by number of mask bits, then mask, then match. */
  function Compare(a: Entry, b: Entry): int {
    if NumBits(a.mask) != NumBits(b.mask) then NumBits(a.mask) - NumBits(b.mask)
    else if a.mask != b.mask then a.mask - b.mask
    else a.match_ - b.match_
  }

  predicate Sorted(table: seq<Entry>) {
    forall i, j :: 0 <= i < j < |table| ==> Compare(table[i], table[j]) <= 0
  }

  /** The masks the builder has a loop for, in the order of the loops. */
  const MASKS: seq<Opcode> := [0xFF00, 0xF1F8, 0xFFF0, 0xF1FF, 0xFFF8, 0xFFFF]

  /** Match bits lie inside the mask; some entry has mask 0xff00, and from it on there are only the
      builder's six masks. */
  ghost predicate WellFormed(table: seq<Entry>, first: nat) {
    && Sorted(table)
    && (forall i :: 0 <= i < |table| ==> And(table[i].match_, table[i].mask) == table[i].match_)
    && first < |table| && table[first].mask == 0xFF00
    && (forall i :: 0 <= i < first ==> table[i].mask != 0xFF00)
    && (forall i :: first <= i < |table| ==> table[i].mask in MASKS)
  }

  /** The last matching entry is a match with the most mask bits. */
  lemma {:induction false} MostSpecific(table: seq<Entry>, o: nat, illegal: Target) returns (k: int)
    requires Sorted(table)
    ensures -1 <= k < |table|
    ensures k == -1 ==>
      && LastMatch(table, o, illegal) == illegal
      && forall i :: 0 <= i < |table| ==> !Matches(table[i], o)
    ensures k >= 0 ==>
      && LastMatch(table, o, illegal) == table[k].target && Matches(table[k], o)
      && forall i :: 0 <= i < |table| && Matches(table[i], o) ==> NumBits(table[i].mask) <= NumBits(table[k].mask)
    decreases |table|
  {
    if table == [] {
      k := -1;
    } else if Matches(table[|table| - 1], o) {
      k := |table| - 1;
      forall i | 0 <= i < |table| && Matches(table[i], o) ensures NumBits(table[i].mask) <= NumBits(table[k].mask) {
        assert i < k ==> Compare(table[i], table[k]) <= 0;
      }
    } else {
      k := MostSpecific(table[..|table| - 1], o, illegal);
    }
  }

  // ---- opcodes by fields ---------------------------------------------------------------------

  /** Bits 15-12, 11-9, 8, 7-4, 3 and 2-0: every mask keeps or drops each of them whole. */
  datatype Fields = Fields(a: nat, b: nat, e: nat, f: nat, g: nat, d: nat)

  predicate Proper(x: Fields) {
    x.a < 16 && x.b < 8 && x.e < 2 && x.f < 16 && x.g < 2 && x.d < 8
  }

  function Number(x: Fields): nat {
    8 * (2 * (16 * (2 * (8 * x.a + x.b) + x.e) + x.f) + x.g) + x.d
  }

  lemma FieldsOf(o: Opcode) returns (x: Fields)
    ensures Proper(x) && Number(x) == o
  {
    var q: nat := o / 8;
    var d: nat := o % 8;
    var q2: nat := q / 2;
    var g: nat := q % 2;
    var q3: nat := q2 / 16;
    var f: nat := q2 % 16;
    var q4: nat := q3 / 2;
    var e: nat := q3 % 2;
    x := Fields(q4 / 8, q4 % 8, e, f, g, d);
  }

  lemma OneNumber(x: Fields, y: Fields)
    requires Proper(x) && Proper(y)
    ensures Number(x) == Number(y) <==> x == y
  {
    if Number(x) == Number(y) {
      var x1, y1 := 8 * x.a + x.b, 8 * y.a + y.b;
      var x2, y2 := 2 * x1 + x.e, 2 * y1 + y.e;
      var x3, y3 := 16 * x2 + x.f, 16 * y2 + y.f;
      LastDigit(8, 2 * x3 + x.g, x.d, 2 * y3 + y.g, y.d);
      LastDigit(2, x3, x.g, y3, y.g);
      LastDigit(16, x2, x.f, y2, y.f);
      LastDigit(2, x1, x.e, y1, y.e);
      LastDigit(8, x.a, x.b, y.a, y.b);
    }
  }

  lemma LastDigit(unit: nat, q: nat, r: nat, p: nat, s: nat)
    requires r < unit && s < unit && unit * q + r == unit * p + s
    ensures q == p && r == s
  {
    DivUnique(unit * q + r, unit, q, r);
    DivUnique(unit * q + r, unit, p, s);
  }

  /** Keep or drop a field. */
  function Kept(keep: bool, r: nat): nat {
    if keep then r else 0
  }

  lemma AndField1(a: nat, r: nat, b: nat, keep: bool)
    requires r < 2
    ensures And(2 * a + r, 2 * b + Kept(keep, 1)) == 2 * And(a, b) + Kept(keep, r)
  {
    AndBit(a, r, b);
  }

  lemma AndField3(a: nat, r: nat, b: nat, keep: bool)
    requires r < 8
    ensures And(8 * a + r, 8 * b + Kept(keep, 7)) == 8 * And(a, b) + Kept(keep, r)
  {
    AndOnes3(a, r, b);
    AndZeros3(a, r, b);
  }

  lemma AndField4(a: nat, r: nat, b: nat, keep: bool)
    requires r < 16
    ensures And(16 * a + r, 16 * b + Kept(keep, 15)) == 16 * And(a, b) + Kept(keep, r)
  {
    hide And;
    var r3, r1: nat := r / 2, r % 2;
    AndField3(a, r3, b, keep);
    AndField1(8 * a + r3, r1, 8 * b + Kept(keep, 7), keep);
  }

  /** A mask that keeps all of bits 15-12 and 8, and the other fields as told. */
  function MaskOf(b: bool, f: bool, g: bool, d: bool): nat {
    Number(Fields(15, Kept(b, 7), 1, Kept(f, 15), Kept(g, 1), Kept(d, 7)))
  }

  lemma AndUpper(x: Fields, b: bool)
    requires Proper(x)
    ensures And(2 * (8 * x.a + x.b) + x.e, 2 * (8 * 15 + Kept(b, 7)) + 1) == 2 * (8 * x.a + Kept(b, x.b)) + x.e
  {
    hide And, Kept;
    KeptAll(x);
    AndField4(0, x.a, 0, true);
    AndZero(0);
    AndField3(x.a, x.b, 15, b);
    AndField1(8 * x.a + x.b, x.e, 8 * 15 + Kept(b, 7), true);
  }

  lemma AndLower(n: nat, m: nat, r: nat, x: Fields, f: bool, g: bool, d: bool)
    requires Proper(x) && And(n, m) == r
    ensures And(8 * (2 * (16 * n + x.f) + x.g) + x.d, 8 * (2 * (16 * m + Kept(f, 15)) + Kept(g, 1)) + Kept(d, 7))
            == 8 * (2 * (16 * r + Kept(f, x.f)) + Kept(g, x.g)) + Kept(d, x.d)
  {
    hide And, Kept;
    AndField4(n, x.f, m, f);
    var n1, m1 := 16 * n + x.f, 16 * m + Kept(f, 15);
    AndField1(n1, x.g, m1, g);
    AndField3(2 * n1 + x.g, x.d, 2 * m1 + Kept(g, 1), d);
  }

  lemma AndFields(x: Fields, b: bool, f: bool, g: bool, d: bool)
    requires Proper(x)
    ensures And(Number(x), MaskOf(b, f, g, d))
        == Number(Fields(x.a, Kept(b, x.b), x.e, Kept(f, x.f), Kept(g, x.g), Kept(d, x.d)))
  {
    hide And, Kept;
    AndUpper(x, b);
    AndLower(2 * (8 * x.a + x.b) + x.e, 2 * (8 * 15 + Kept(b, 7)) + 1, 2 * (8 * x.a + Kept(b, x.b)) + x.e, x, f, g, d);
  }

  lemma KeptAll(x: Fields)
    ensures Kept(true, 15) == 15 && Kept(true, 1) == 1 && Kept(true, x.a) == x.a && Kept(true, x.e) == x.e
  {
  }

  /** Operands without a common field have no common bit. */
  lemma AndApart1(a: nat, r: nat, b: nat, s: nat)
    requires r < 2 && s < 2 && (r == 0 || s == 0)
    ensures And(2 * a + r, 2 * b + s) == 2 * And(a, b)
  {
    AndBit(a, r, b);
  }

  lemma AndApart3(a: nat, r: nat, b: nat, s: nat)
    requires r < 8 && s < 8 && (r == 0 || s == 0)
    ensures And(8 * a + r, 8 * b + s) == 8 * And(a, b)
  {
    hide And;
    var r2: nat, r1: nat, r0: nat := r / 4, r / 2 % 2, r % 2;
    var s2: nat, s1: nat, s0: nat := s / 4, s / 2 % 2, s % 2;
    assert r == 4 * r2 + 2 * r1 + r0 && s == 4 * s2 + 2 * s1 + s0;
    AndApart1(a, r2, b, s2);
    AndApart1(2 * a + r2, r1, 2 * b + s2, s1);
    AndApart1(4 * a + 2 * r2 + r1, r0, 4 * b + 2 * s2 + s1, s0);
  }

  lemma AndApart4(a: nat, r: nat, b: nat, s: nat)
    requires r < 16 && s < 16 && (r == 0 || s == 0)
    ensures And(16 * a + r, 16 * b + s) == 16 * And(a, b)
  {
    hide And;
    AndApart3(a, r / 2, b, s / 2);
    AndApart1(8 * a + r / 2, r % 2, 8 * b + s / 2, s % 2);
  }

  lemma OrApart(x: Fields, y: Fields)
    requires Proper(x) && Proper(y) && y.a == 0 && y.e == 0
    requires (x.b == 0 || y.b == 0) && (x.f == 0 || y.f == 0) && (x.g == 0 || y.g == 0) && (x.d == 0 || y.d == 0)
    ensures Or(Number(x), Number(y)) == Number(x) + Number(y)
  {
    hide And;
    var x1, y1 := 8 * x.a + x.b, y.b;
    var x2, y2 := 2 * x1 + x.e, 2 * y1;
    var x3, y3 := 16 * x2 + x.f, 16 * y2 + y.f;
    var x4, y4 := 2 * x3 + x.g, 2 * y3 + y.g;
    AndZero(x.a);
    AndApart3(x.a, x.b, 0, y.b);
    AndApart1(x1, x.e, y1, 0);
    AndApart4(x2, x.f, y2, y.f);
    AndApart1(x3, x.g, y3, y.g);
    AndApart3(x4, x.d, y4, y.d);
    assert Number(x) == 8 * x4 + x.d && Number(y) == 8 * y4 + y.d;
  }

  // ---- the six masks as arithmetic -----------------------------------------------------------

  /** The part of an opcode that a mask of the builder drops. */
  function Dropped(mask: Opcode, o: nat): nat
    requires mask in MASKS
  {
    match mask
    case 0xFF00 => o % 256
    case 0xF1F8 => o / 512 % 8 * 512 + o % 8
    case 0xFFF0 => o % 16
    case 0xF1FF => o / 512 % 8 * 512
    case 0xFFF8 => o % 8
    case _ => 0
  }

  predicate KeepsB(mask: Opcode) { mask != 0xF1F8 && mask != 0xF1FF }

  predicate KeepsF(mask: Opcode) { mask != 0xFF00 }

  predicate KeepsG(mask: Opcode) { mask != 0xFF00 && mask != 0xFFF0 }

  predicate KeepsD(mask: Opcode) { mask == 0xF1FF || mask == 0xFFFF }

  lemma MaskFields(mask: Opcode)
    requires mask in MASKS
    ensures mask == MaskOf(KeepsB(mask), KeepsF(mask), KeepsG(mask), KeepsD(mask))
  {
  }

  /** The fields a mask drops. */
  function Rest(mask: Opcode, x: Fields): Fields {
    Fields(0, Kept(!KeepsB(mask), x.b), 0, Kept(!KeepsF(mask), x.f), Kept(!KeepsG(mask), x.g), Kept(!KeepsD(mask), x.d))
  }

  lemma DroppedIs(mask: Opcode, x: Fields)
    requires mask in MASKS && Proper(x)
    ensures Dropped(mask, Number(x)) == Number(Rest(mask, x))
  {
    var high := 8 * x.a + x.b;
    Parts(Number(x), 8, 2 * (16 * (2 * high + x.e) + x.f) + x.g, x.d);
    Parts(Number(x), 16, 16 * (2 * high + x.e) + x.f, 8 * x.g + x.d);
    Parts(Number(x), 256, 2 * high + x.e, 16 * x.f + 8 * x.g + x.d);
    Parts(Number(x), 512, high, 256 * x.e + 16 * x.f + 8 * x.g + x.d);
    Parts(high, 8, x.a, x.b);
    hide Number;
  }

  lemma Parts(n: nat, unit: nat, q: nat, r: nat)
    requires r < unit && n == unit * q + r
    ensures n / unit == q && n % unit == r
  {
    DivUnique(n, unit, q, r);
  }

  /** Masking subtracts what is dropped. */
  lemma MaskedIs(mask: Opcode, o: Opcode)
    requires mask in MASKS
    ensures And(o, mask) == o - Dropped(mask, o)
  {
    hide And, Dropped;
    var x := FieldsOf(o);
    MaskFields(mask);
    AndFields(x, KeepsB(mask), KeepsF(mask), KeepsG(mask), KeepsD(mask));
    DroppedIs(mask, x);
  }

  /** Adding dropped bits to a match is or-ing them in, and gives the opcodes the entry matches. */
  lemma OrIs(mask: Opcode, m: Opcode, s: Opcode)
    requires mask in MASKS && And(m, mask) == m && Dropped(mask, s) == s
    ensures Or(m, s) == m + s < 0x1_0000
    ensures And(m + s, mask) == m && Dropped(mask, m + s) == s
  {
    hide And, Dropped, Kept, Rest, Number, Or;
    ZeroNumber();
    var x := FieldsOf(m);
    var y := FieldsOf(s);
    MaskedIs(mask, m);
    DroppedIs(mask, x);
    DroppedIs(mask, y);
    OneNumber(Rest(mask, x), Fields(0, 0, 0, 0, 0, 0)) by { RestProper(mask, x); }
    OneNumber(y, Rest(mask, y)) by { RestProper(mask, y); }
    RestApart(mask, x, y);
    OrApart(x, y);
    var z := Fields(x.a, x.b + y.b, x.e, x.f + y.f, x.g + y.g, x.d + y.d);
    SumNumber(x, y);
    DroppedIs(mask, z);
    MaskedIs(mask, m + s);
  }

  lemma SumNumber(x: Fields, y: Fields)
    requires y.a == 0 && y.e == 0
    ensures Number(Fields(x.a, x.b + y.b, x.e, x.f + y.f, x.g + y.g, x.d + y.d)) == Number(x) + Number(y)
  {
  }

  lemma ZeroNumber()
    ensures Number(Fields(0, 0, 0, 0, 0, 0)) == 0
    ensures forall x: Fields :: Proper(x) ==> Number(x) < 0x1_0000
  {
  }

  lemma RestProper(mask: Opcode, x: Fields)
    requires Proper(x)
    ensures Proper(Rest(mask, x))
  {
  }

  lemma RestApart(mask: Opcode, x: Fields, y: Fields)
    requires Proper(x) && Proper(y) && Rest(mask, x) == Fields(0, 0, 0, 0, 0, 0) && y == Rest(mask, y)
    ensures y.a == 0 && y.e == 0
    ensures (x.b == 0 || y.b == 0) && (x.f == 0 || y.f == 0) && (x.g == 0 || y.g == 0) && (x.d == 0 || y.d == 0)
    ensures Rest(mask, Fields(x.a, x.b + y.b, x.e, x.f + y.f, x.g + y.g, x.d + y.d)) == y
  {
  }

  // ---- the builder ---------------------------------------------------------------------------

  /** Entry `e` written over `table`. */
  ghost predicate Applied(e: Entry, was: seq<Target>, now: seq<Target>) {
    && |was| == |now| == 0x1_0000
    && forall o :: 0 <= o < 0x1_0000 ==> now[o] == if Matches(e, o) then e.target else was[o]
  }

  /** A match, and an opcode it covers, from the index the builder counts through. */
  lemma Covered(e: Entry, s: Opcode)
    requires e.mask in MASKS && And(e.match_, e.mask) == e.match_ && Dropped(e.mask, s) == s
    ensures Or(e.match_, s) < 0x1_0000 && Or(e.match_, s) >= 0
    ensures forall o: Opcode :: Matches(e, o) && Dropped(e.mask, o) == s <==> o == Or(e.match_, s)
  {
    hide And, Dropped, Or;
    OrIs(e.mask, e.match_, s);
    forall o: Opcode ensures Matches(e, o) && Dropped(e.mask, o) == s <==> o == Or(e.match_, s) {
      MaskedIs(e.mask, o);
    }
  }

  /** The loop of the first phase: any mask. */
  method FillAny(jump: array<Target>, e: Entry)
    requires jump.Length == 0x1_0000
    modifies jump
    ensures Applied(e, old(jump[..]), jump[..])
  {
    hide And;
    for i := 0 to 0x1_0000
      invariant forall o :: 0 <= o < 0x1_0000 ==> jump[o] == if o < i && Matches(e, o) then e.target else old(jump[o])
    {
      if And(i, e.mask) == e.match_ {
        jump[i] := e.target;
      }
    }
  }

  /** The loops of masks 0xff00, 0xfff0 and 0xfff8: the low `count` opcodes. */
  method FillLow(jump: array<Target>, e: Entry, count: nat)
    requires jump.Length == 0x1_0000 && And(e.match_, e.mask) == e.match_
    requires (e.mask, count) == (0xFF00, 256) || (e.mask, count) == (0xFFF0, 16) || (e.mask, count) == (0xFFF8, 8)
    modifies jump
    ensures Applied(e, old(jump[..]), jump[..])
  {
    hide And, Or, Matches, Dropped;
    for i := 0 to count
      invariant forall o :: 0 <= o < 0x1_0000 ==>
        jump[o] == if Matches(e, o) && Dropped(e.mask, o) < i then e.target else old(jump[o])
    {
      DroppedLow(e.mask, count, i);
      Covered(e, i);
      jump[Or(e.match_, i)] := e.target;
    }
    DroppedBelow(e.mask, count);
  }

  lemma DroppedLow(mask: Opcode, count: nat, i: nat)
    requires (mask, count) == (0xFF00, 256) || (mask, count) == (0xFFF0, 16) || (mask, count) == (0xFFF8, 8)
    requires i < count
    ensures Dropped(mask, i) == i
  {
  }

  lemma DroppedBelow(mask: Opcode, count: nat)
    requires (mask, count) == (0xFF00, 256) || (mask, count) == (0xFFF0, 16) || (mask, count) == (0xFFF8, 8)
    ensures forall o :: 0 <= o < 0x1_0000 ==> Dropped(mask, o) < count
  {
  }

  /** The loop of mask 0xf1ff: the eight registers in bits 11-9. */
  method FillRegister(jump: array<Target>, e: Entry)
    requires jump.Length == 0x1_0000 && And(e.match_, e.mask) == e.match_ && e.mask == 0xF1FF
    modifies jump
    ensures Applied(e, old(jump[..]), jump[..])
  {
    hide And, Or, Matches, Dropped;
    for i := 0 to 8
      invariant forall o :: 0 <= o < 0x1_0000 ==>
        jump[o] == if Matches(e, o) && Dropped(e.mask, o) < 512 * i then e.target else old(jump[o])
    {
      DroppedRegister(i);
      Covered(e, i * 512);
      jump[Or(e.match_, i * 512)] := e.target;
    }
    DroppedRegister(0);
  }

  lemma DroppedRegister(i: nat)
    requires i < 8
    ensures Dropped(0xF1FF, 512 * i) == 512 * i
    ensures forall o :: 0 <= o < 0x1_0000 ==>
      && 0 <= Dropped(0xF1FF, o) < 4096
      && (Dropped(0xF1FF, o) < 512 * (i + 1) <==> Dropped(0xF1FF, o) < 512 * i || Dropped(0xF1FF, o) == 512 * i)
  {
  }

  /** The nested loops of mask 0xf1f8: both register fields. */
  method FillBoth(jump: array<Target>, e: Entry)
    requires jump.Length == 0x1_0000 && And(e.match_, e.mask) == e.match_ && e.mask == 0xF1F8
    modifies jump
    ensures Applied(e, old(jump[..]), jump[..])
  {
    hide And, Or, Matches, Dropped;
    for i := 0 to 8
      invariant forall o :: 0 <= o < 0x1_0000 ==>
        jump[o] == if Matches(e, o) && Dropped(e.mask, o) < 512 * i then e.target else old(jump[o])
    {
      for j := 0 to 8
        invariant forall o :: 0 <= o < 0x1_0000 ==>
          jump[o] == if Matches(e, o) && Dropped(e.mask, o) < 512 * i + j then e.target else old(jump[o])
      {
        OrTwice(e, i, j);
        Covered(e, i * 512 + j);
        var instr := Or(Or(e.match_, i * 512), j);
        jump[instr] := e.target;
      }
      DroppedBoth(i);
    }
    DroppedBoth(7);
  }

  lemma DroppedBoth(i: nat)
    requires i < 8
    ensures forall o :: 0 <= o < 0x1_0000 ==>
      0 <= Dropped(0xF1F8, o) < 4096 && (Dropped(0xF1F8, o) < 512 * (i + 1) <==> Dropped(0xF1F8, o) < 512 * i + 8)
  {
  }

  lemma DroppedPair(m: nat, i: nat, j: nat)
    requires Dropped(0xF1F8, m) == 0 && i < 8 && j < 8
    ensures Dropped(0xF1F8, i * 512) == i * 512 && Dropped(0xF1F8, i * 512 + j) == i * 512 + j
    ensures Dropped(0xFFF8, m + i * 512) == 0 && Dropped(0xFFF8, j) == j
  {
    DivUnique(i * 512, 512, i, 0);
    DivUnique(i * 512, 8, i * 64, 0);
    DivUnique(i * 512 + j, 512, i, j);
    DivUnique(i * 512 + j, 8, i * 64, j);
    DivUnique(i, 8, 0, i);
    DivUnique(m + i * 512, 8, m / 8 + i * 64, 0);
  }

  /** The two register fields are or-ed in one after the other. */
  lemma OrTwice(e: Entry, i: nat, j: nat)
    requires And(e.match_, e.mask) == e.match_ && e.mask == 0xF1F8 && i < 8 && j < 8
    ensures 0 <= Or(e.match_, i * 512) && Or(Or(e.match_, i * 512), j) == Or(e.match_, i * 512 + j)
    ensures Dropped(e.mask, i * 512 + j) == i * 512 + j
  {
    hide And, Or, Dropped;
    var m := e.match_;
    MaskedIs(e.mask, m);
    DroppedPair(m, i, j);
    OrIs(e.mask, m, i * 512);
    OrIs(e.mask, m, i * 512 + j);
    MaskedIs(0xFFF8, m + i * 512);
    OrIs(0xFFF8, m + i * 512, j);
  }

  // ---- the phases ----------------------------------------------------------------------------

  /** The jump table holds the last match among the first `k` entries. */
  ghost predicate Built(table: seq<Entry>, k: nat, illegal: Target, jump: seq<Target>)
    requires k <= |table|
  {
    |jump| == 0x1_0000 && forall o :: 0 <= o < 0x1_0000 ==> jump[o] == LastMatch(table[..k], o, illegal)
  }

  lemma BuiltNext(table: seq<Entry>, k: nat, illegal: Target, was: seq<Target>, now: seq<Target>)
    requires k < |table| && Built(table, k, illegal, was) && Applied(table[k], was, now)
    ensures Built(table, k + 1, illegal, now)
  {
    hide Matches;
    assert table[..k + 1][..k] == table[..k];
  }

  lemma NumBitsHalf(a: nat)
    ensures NumBits(2 * a) == NumBits(a) && NumBits(2 * a + 1) == NumBits(a) + 1
  {
  }

  /** The digits that occur in the masks. */
  lemma NumBitsNibble(a: nat)
    ensures NumBits(16 * a) == NumBits(a) && NumBits(16 * a + 1) == NumBits(a) + 1
    ensures NumBits(16 * a + 8) == NumBits(a) + 1 && NumBits(16 * a + 15) == NumBits(a) + 4
  {
    hide NumBits;
    NumBitsHalf(a);
    NumBitsHalf(2 * a);
    NumBitsHalf(2 * a + 1);
    NumBitsHalf(4 * a);
    NumBitsHalf(4 * a + 2);
    NumBitsHalf(4 * a + 3);
    NumBitsHalf(8 * a);
    NumBitsHalf(8 * a + 4);
    NumBitsHalf(8 * a + 7);
  }

  lemma NumBitsZero()
    ensures NumBits(0) == 0
  {
  }

  lemma NumBitsOfMasks()
    ensures NumBits(0xFF00) == 8 && NumBits(0xF1F8) == 10 && NumBits(0xFFF0) == 12
    ensures NumBits(0xF1FF) == 13 && NumBits(0xFFF8) == 13 && NumBits(0xFFFF) == 16
  {
    hide NumBits;
    NumBitsZero();
    NumBitsNibble(0);
    NumBitsNibble(0xF);
    NumBitsNibble(0xFF);
    NumBitsNibble(0xF1);
    NumBitsNibble(0xFF0);
    NumBitsNibble(0xF1F);
    NumBitsNibble(0xFFF);
  }

  /** The place of a mask among the builder's phases. */
  function Phase(mask: Opcode): nat {
    match mask
    case 0xFF00 => 0
    case 0xF1F8 => 1
    case 0xFFF0 => 2
    case 0xF1FF => 3
    case 0xFFF8 => 4
    case _ => 5
  }

  /** From `first` on, sorted entries come in the order of the phases. */
  lemma PhasesInOrder(table: seq<Entry>, first: nat, i: nat, j: nat)
    requires WellFormed(table, first) && first <= i <= j < |table|
    ensures Phase(table[i].mask) <= Phase(table[j].mask)
  {
    hide NumBits;
    NumBitsOfMasks();
    if i < j {
      assert Compare(table[i], table[j]) <= 0;
    }
  }

  /** Every entry from `k` on belongs to phase `p` or a later one. */
  ghost predicate From(table: seq<Entry>, k: nat, p: nat) {
    forall i :: k <= i < |table| ==> table[i].mask in MASKS && Phase(table[i].mask) >= p
  }

  /** A phase ends where its mask does. */
  lemma NextPhase(table: seq<Entry>, first: nat, k: nat, p: nat)
    requires WellFormed(table, first) && first <= k <= |table| && From(table, k, p)
    requires k < |table| ==> Phase(table[k].mask) != p
    ensures From(table, k, p + 1)
  {
    hide NumBits;
    forall i | k <= i < |table| ensures table[i].mask in MASKS && Phase(table[i].mask) >= p + 1 {
      PhasesInOrder(table, first, k, i);
    }
  }

  /** The phased builder fills the jump table with the last matching entry of every opcode. */
  method Build(table: seq<Entry>, ghost first: nat, illegal: Target, jump: array<Target>)
    requires WellFormed(table, first) && jump.Length == 0x1_0000
    modifies jump
    ensures forall o :: 0 <= o < 0x1_0000 ==> jump[o] == LastMatch(table, o, illegal)
  {
    hide NumBits, Sorted, Applied, Matches, LastMatch, And, Built, From;
    for i := 0 to 0x1_0000
      invariant forall o :: 0 <= o < i ==> jump[o] == illegal
    {
      jump[i] := illegal;
    }
    NoneBuilt(table, illegal, jump[..]);
    var k := 0;
    while table[k].mask != 0xFF00
      invariant k <= first && Built(table, k, illegal, jump[..])
      decreases first - k
    {
      ghost var was := jump[..];
      FillAny(jump, table[k]);
      BuiltNext(table, k, illegal, was, jump[..]);
      k := k + 1;
    }
    FirstPhase(table, first);
    k := FillPhase(table, first, illegal, jump, k, 0xFF00);
    k := FillPhase(table, first, illegal, jump, k, 0xF1F8);
    k := FillPhase(table, first, illegal, jump, k, 0xFFF0);
    k := FillPhase(table, first, illegal, jump, k, 0xF1FF);
    k := FillPhase(table, first, illegal, jump, k, 0xFFF8);
    k := FillPhase(table, first, illegal, jump, k, 0xFFFF);
    PastLast(table, k);
    AllBuilt(table, illegal, jump[..]);
  }

  /** One of the builder's loops over the entries of one mask. */
  method FillPhase(table: seq<Entry>, ghost first: nat, illegal: Target, jump: array<Target>, start: nat, mask: Opcode)
    returns (k: nat)
    requires WellFormed(table, first) && jump.Length == 0x1_0000 && mask in MASKS
    requires first <= start <= |table| && From(table, start, Phase(mask)) && Built(table, start, illegal, jump[..])
    modifies jump
    ensures start <= k <= |table| && From(table, k, Phase(mask) + 1) && Built(table, k, illegal, jump[..])
  {
    hide NumBits, Sorted, Applied, Matches, Built, And, From;
    k := start;
    while k < |table| && table[k].mask == mask
      invariant start <= k <= |table| && From(table, k, Phase(mask)) && Built(table, k, illegal, jump[..])
      decreases |table| - k
    {
      ghost var was := jump[..];
      var e := table[k];
      match mask {
        case 0xFF00 => FillLow(jump, e, 256);
        case 0xF1F8 => FillBoth(jump, e);
        case 0xFFF0 => FillLow(jump, e, 16);
        case 0xF1FF => FillRegister(jump, e);
        case 0xFFF8 => FillLow(jump, e, 8);
        case _ => FillOne(jump, e);
      }
      BuiltNext(table, k, illegal, was, jump[..]);
      FromLater(table, k, Phase(mask));
      k := k + 1;
    }
    PhaseOf(table, first, k, mask);
    NextPhase(table, first, k, Phase(mask));
  }

  /** The last phase: one opcode per entry. */
  method FillOne(jump: array<Target>, e: Entry)
    requires jump.Length == 0x1_0000 && And(e.match_, e.mask) == e.match_ && e.mask == 0xFFFF
    modifies jump
    ensures Applied(e, old(jump[..]), jump[..])
  {
    hide And, Or;
    Covered(e, 0);
    OrIs(e.mask, e.match_, 0);
    jump[e.match_] := e.target;
  }

  lemma NoneBuilt(table: seq<Entry>, illegal: Target, jump: seq<Target>)
    requires |jump| == 0x1_0000 && forall o :: 0 <= o < 0x1_0000 ==> jump[o] == illegal
    ensures Built(table, 0, illegal, jump)
  {
  }

  lemma AllBuilt(table: seq<Entry>, illegal: Target, jump: seq<Target>)
    requires Built(table, |table|, illegal, jump)
    ensures |jump| == 0x1_0000 && forall o :: 0 <= o < 0x1_0000 ==> jump[o] == LastMatch(table, o, illegal)
  {
    assert table[..|table|] == table;
  }

  lemma FirstPhase(table: seq<Entry>, first: nat)
    requires WellFormed(table, first)
    ensures From(table, first, 0)
  {
  }

  lemma FromLater(table: seq<Entry>, k: nat, p: nat)
    requires From(table, k, p)
    ensures From(table, k + 1, p)
  {
  }

  lemma PastLast(table: seq<Entry>, k: nat)
    requires k <= |table| && From(table, k, 6)
    ensures k == |table|
  {
    if k < |table| {
      PhaseRange(table[k].mask);
    }
  }

  lemma PhaseRange(mask: Opcode)
    ensures Phase(mask) < 6
  {
  }

  lemma PhaseOf(table: seq<Entry>, first: nat, k: nat, mask: Opcode)
    requires WellFormed(table, first) && first <= k <= |table| && mask in MASKS
    requires k < |table| ==> table[k].mask != mask
    ensures k < |table| ==> Phase(table[k].mask) != Phase(mask)
  {
    hide Sorted;
    if k < |table| {
      assert table[k].mask in MASKS;
    }
  }
}
