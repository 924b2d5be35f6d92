/** Physical memory as the table walks see it: one longword per aligned address, split at the two
    status bits (U and M) that a walk may add to a descriptor.

    Every address a walk forms from a descriptor is a multiple of four (the descriptor's address
    field is masked and the index is scaled), so a longword map loses nothing as long as the root
    pointers are longword aligned too. */
module Descriptors {
  import opened Words

  /** One access to translate; `write` is the negation of the emulator's R/W flag. */
  datatype Access = Access(addr: u32, fc: nat, write: bool)

  predicate UserAccess(fc: nat) {
    fc / 4 % 2 == 0
  }

  /** A longword: bits 31-5, bit 4 (M in a page descriptor), bit 3 (U), bits 2-0. */
  datatype Longword = Longword(upper: int, modified: bool, used: bool, low: int)

  type Word = w: Longword | 0 <= w.upper < 0x800_0000 && 0 <= w.low < 8 witness Longword(0, false, false, 0)

  const ZERO: Word := Longword(0, false, false, 0)

  /** The longword as a number. */
  function Number(e: Word): u32 {
    e.upper * 32 + (if e.modified then 16 else 0) + (if e.used then 8 else 0) + e.low
  }

  /** The two type bits. */
  function Type(e: Word): int {
    e.low % 4
  }

  /** Bit 2, write protection in every descriptor. */
  predicate Protected(e: Word) {
    e.low >= 4
  }

  /** The bit of weight 32 * `unit`. */
  predicate UpperBit(e: Word, unit: int)
    requires unit > 0
  {
    e.upper / unit % 2 == 1
  }

  /** The word without its two type bits, an indirect pointer. */
  function Pointer(e: Word): u32 {
    e.upper * 32 + (if e.modified then 16 else 0) + (if e.used then 8 else 0) + (if Protected(e) then 4 else 0)
  }

  /** Longwords that are not mapped read as zero. */
  type Memory = map<u32, Word>

  function Read(m: Memory, p: u32): Word {
    if p in m then m[p] else ZERO
  }

  /** `e | U`, or `e | U | M`. */
  function Marked(e: Word, modified: bool): Word {
    e.(used := true, modified := e.modified || modified)
  }

  /** Write the entry at `p` back with U (and M) added; no write when they are there. */
  function Mark(m: Memory, p: u32, modified: bool): Memory {
    if Marked(Read(m, p), modified) == Read(m, p) then m else m[p := Marked(Read(m, p), modified)]
  }

  /** `new_` is `old_` with none or some of its status bits added.  A 68030 table descriptor
      (`typed`) keeps address bit 4 where a page descriptor has M, so there only U may change. */
  ghost predicate WordGrows(typed: bool, old_: Word, new_: Word) {
    && new_.upper == old_.upper && new_.low == old_.low
    && (old_.used ==> new_.used)
    && (old_.modified ==> new_.modified)
    && (typed && Type(old_) != 1 ==> new_.modified == old_.modified)
  }

  /** `m'` is `m` with status bits added to words of `descriptors`, and nothing else changed. */
  ghost predicate Grows(typed: bool, descriptors: set<u32>, m: Memory, m': Memory) {
    forall p: u32 ::
      if p in descriptors then WordGrows(typed, Read(m, p), Read(m', p)) else Read(m', p) == Read(m, p)
  }

  /** Which marks a descriptor admits. */
  predicate MayMark(typed: bool, e: Word, modified: bool) {
    modified ==> !typed || Type(e) == 1
  }

  lemma GrowsRefl(typed: bool, descriptors: set<u32>, m: Memory)
    ensures Grows(typed, descriptors, m, m)
  {
  }

  lemma GrowsTrans(typed: bool, descriptors: set<u32>, a: Memory, b: Memory, c: Memory)
    requires Grows(typed, descriptors, a, b) && Grows(typed, descriptors, b, c)
    ensures Grows(typed, descriptors, a, c)
  {
    forall p: u32 | p in descriptors ensures WordGrows(typed, Read(a, p), Read(c, p)) {
      assert WordGrows(typed, Read(a, p), Read(b, p)) && WordGrows(typed, Read(b, p), Read(c, p));
    }
  }

  lemma MarkGrows(typed: bool, descriptors: set<u32>, m: Memory, p: u32, modified: bool)
    requires p in descriptors && MayMark(typed, Read(m, p), modified)
    ensures Grows(typed, descriptors, m, Mark(m, p, modified))
  {
  }

  /** Bits a memory already holds need no second write. */
  lemma MarkTwice(typed: bool, descriptors: set<u32>, m: Memory, m': Memory, p: u32, modified: bool, again: bool)
    requires p in descriptors && (again ==> modified)
    requires Grows(typed, descriptors, Mark(m, p, modified), m')
    ensures Mark(m', p, again) == m'
  {
    assert WordGrows(typed, Read(Mark(m, p, modified), p), Read(m', p));
  }

  lemma MarkMonotone(typed: bool, descriptors: set<u32>, m: Memory, m': Memory, p: u32, modified: bool)
    requires p in descriptors && Grows(typed, descriptors, m, m')
    ensures Grows(typed, descriptors, Mark(m, p, modified), Mark(m', p, modified))
  {
    assert WordGrows(typed, Read(m, p), Read(m', p));
  }
}
