/** Bit fields in memory: a bit-addressed view kept through one to five byte accesses. */
module BitFields {
  import opened Words
  import opened Bits
  import opened Registers
  import Ram

  type Byte = b: Bits | |b| == 8 witness [false, false, false, false, false, false, false, false]

  type Memory = map<int, Byte>

  function ByteAt(m: Memory, bus: Ram.Bus, a: int): Byte {
    if Ram.Cell(bus, a) in m then m[Ram.Cell(bus, a)] else Zeros(8)
  }

  function PutByte(m: Memory, bus: Ram.Bus, a: int, b: Byte): Memory {
    m[Ram.Cell(bus, a) := b]
  }

  /** Memory as one string of bits: bit 0 of an address is its byte's most significant one. */
  predicate BitAt(m: Memory, bus: Ram.Bus, p: int) {
    ByteAt(m, bus, p / 8)[p % 8]
  }

  predicate BitFrom(m: Memory, bus: Ram.Bus, p: int, k: int) {
    BitAt(m, bus, p + k)
  }

  /** The `n` bits from bit address `p`. */
  function FieldBits(m: Memory, bus: Ram.Bus, p: int, n: nat): (w: Bits)
    ensures |w| == n && forall i :: 0 <= i < n ==> w[i] == BitFrom(m, bus, p, i)
  {
    if n == 0 then [] else FieldBits(m, bus, p, n - 1) + [BitFrom(m, bus, p, n - 1)]
  }

  /** Exactly the bits of the field at bit address `p` change, to `field`: every other bit on the bus stays. */
  ghost predicate Replaced(bus: Ram.Bus, m: Memory, m': Memory, p: int, field: Bits) {
    forall k :: 0 <= k < 8 * bus ==> BitFrom(m', bus, p, k) == if k < |field| then field[k] else BitFrom(m, bus, p, k)
  }

  // ---- bytes and bits ------------------------------------------------------------------------

  lemma ByteOfBit(a: int, i: int)
    requires 0 <= i < 8
    ensures (8 * a + i) / 8 == a && (8 * a + i) % 8 == i
  {
  }

  lemma BitOfByte(m: Memory, bus: Ram.Bus, a: int, i: int)
    requires 0 <= i < 8
    ensures BitAt(m, bus, 8 * a + i) == ByteAt(m, bus, a)[i]
  {
    ByteOfBit(a, i);
  }

  /** `n` bytes from `a`. */
  function ReadBytes(m: Memory, bus: Ram.Bus, a: int, n: nat): (w: Bits)
    ensures |w| == 8 * n
  {
    if n == 0 then [] else ReadBytes(m, bus, a, n - 1) + ByteAt(m, bus, a + n - 1)
  }

  lemma {:induction false} ReadBit(m: Memory, bus: Ram.Bus, a: int, n: nat, p: int)
    requires 0 <= p < 8 * n
    ensures ReadBytes(m, bus, a, n)[p] == BitAt(m, bus, 8 * a + p)
    decreases n
  {
    hide BitAt, ByteAt;
    if p < 8 * (n - 1) {
      ReadBit(m, bus, a, n - 1, p);
    } else {
      var i := p - 8 * (n - 1);
      BitOfByte(m, bus, a + n - 1, i);
      assert 8 * (a + n - 1) + i == 8 * a + p;
    }
  }

  /** The first `n` bytes of `w` stored from `a`. */
  function WriteBytes(m: Memory, bus: Ram.Bus, a: int, w: Bits, n: nat): Memory
    requires 8 * n <= |w|
  {
    if n == 0 then m else PutByte(WriteBytes(m, bus, a, w, n - 1), bus, a + n - 1, w[8 * (n - 1)..8 * n])
  }

  lemma PutOne(m: Memory, bus: Ram.Bus, p: int, b: Byte, q: int)
    ensures ByteAt(PutByte(m, bus, p, b), bus, q)
            == if Ram.Cell(bus, q) == Ram.Cell(bus, p) then b else ByteAt(m, bus, q)
  {
  }

  lemma {:induction false} WrittenByte(m: Memory, bus: Ram.Bus, a: int, w: Bits, n: nat, j: nat)
    requires 8 * n <= |w| && n <= bus && j < bus
    ensures ByteAt(WriteBytes(m, bus, a, w, n), bus, a + j)
            == if j < n then w[8 * j..8 * j + 8] else ByteAt(m, bus, a + j)
    decreases n
  {
    hide Ram.Cell, ByteAt, PutByte;
    if n > 0 {
      WrittenByte(m, bus, a, w, n - 1, j);
      PutOne(WriteBytes(m, bus, a, w, n - 1), bus, a + n - 1, w[8 * (n - 1)..8 * n], a + j);
      if j < n - 1 {
        Ram.CellsApart(bus, a + j, a + n - 1);
      } else if j > n - 1 {
        Ram.CellsApart(bus, a + n - 1, a + j);
      }
    }
  }

  /** Whole bytes whose bits outside the field are what memory holds replace just the field. */
  lemma WriteReplaces(m: Memory, bus: Ram.Bus, a: int, w: Bits, n: nat, offset: nat, field: Bits)
    requires 8 * n <= |w| && n < bus && offset < 8 && offset + |field| <= 8 * n
    requires forall p :: 0 <= p < 8 * n ==>
      w[p] == if offset <= p < offset + |field| then field[p - offset] else BitAt(m, bus, 8 * a + p)
    ensures Replaced(bus, m, WriteBytes(m, bus, a, w, n), 8 * a + offset, field)
  {
    hide BitAt;
    var m', start := WriteBytes(m, bus, a, w, n), 8 * a + offset;
    forall k | 0 <= k < 8 * bus
      ensures BitFrom(m', bus, start, k) == if k < |field| then field[k] else BitFrom(m, bus, start, k)
    {
      var p := offset + k;
      if p < 8 * bus {
        WrittenBit(m, bus, a, w, n, p);
        assert 8 * a + p == start + k;
      } else {
        AroundTheBus(m, bus, a, p - 8 * bus);
        AroundTheBus(m', bus, a, p - 8 * bus);
        WrittenBit(m, bus, a, w, n, p - 8 * bus);
        assert 8 * (a + bus) + (p - 8 * bus) == start + k;
      }
    }
  }

  lemma WrittenBit(m: Memory, bus: Ram.Bus, a: int, w: Bits, n: nat, p: int)
    requires 8 * n <= |w| && n <= bus && 0 <= p < 8 * bus
    ensures BitAt(WriteBytes(m, bus, a, w, n), bus, 8 * a + p) == if p < 8 * n then w[p] else BitAt(m, bus, 8 * a + p)
  {
    hide BitAt, ByteAt, WriteBytes;
    var j, i := p / 8, p % 8;
    BitOfByte(m, bus, a + j, i);
    BitOfByte(WriteBytes(m, bus, a, w, n), bus, a + j, i);
    assert 8 * (a + j) + i == 8 * a + p;
    WrittenByte(m, bus, a, w, n, j);
  }

  /** Addresses repeat after a whole bus. */
  lemma AroundTheBus(m: Memory, bus: Ram.Bus, a: int, p: int)
    requires 0 <= p < 8
    ensures BitAt(m, bus, 8 * (a + bus) + p) == BitAt(m, bus, 8 * a + p)
  {
    ByteOfBit(a + bus, p);
    ByteOfBit(a, p);
    assert Ram.Cell(bus, a + bus) == Ram.Cell(bus, a);
  }

  // ---- loading and storing -------------------------------------------------------------------

  /** A field at the top of a word, with the bytes it came from. */
  datatype Bitfield = Bitfield(field: Bits, lo: Bits, hi: Bits)

  function ByteCount(offset: nat, width: nat): (n: nat)
    ensures offset < 8 && 1 <= width <= 32 ==> 1 <= n <= 5 && offset + width <= 8 * n < offset + width + 8
  {
    (offset + width + 7) / 8
  }

  function MakeBf(lo: Bits, hi: Bits, offset: nat): (bf: Bitfield)
    requires |lo| == 32 && |hi| == 8 && offset < 8
    ensures |bf.field| == 32
  {
    Bitfield(Or(Shl(lo, offset), Zeros(24) + Shr(hi, 8 - offset)), lo, hi)
  }

  /** `bf` holds the `n` bytes at `addr`, zeros after them, and the field `offset` bits in. */
  ghost predicate Loaded(m: Memory, bus: Ram.Bus, addr: int, offset: nat, n: nat, bf: Bitfield) {
    && |bf.field| == 32 && |bf.lo| == 32 && |bf.hi| == 8
    && (forall p :: 0 <= p < 40 ==> (bf.lo + bf.hi)[p] == (p < 8 * n && BitAt(m, bus, 8 * addr + p)))
    && (forall i :: 0 <= i < 32 ==> bf.field[i] == (i + offset < 8 * n && BitAt(m, bus, 8 * addr + offset + i)))
  }

  lemma MakesLoaded(m: Memory, bus: Ram.Bus, addr: int, offset: nat, n: nat, lo: Bits, hi: Bits)
    requires |lo| == 32 && |hi| == 8 && offset < 8 && n <= 5 && (n == 5 ==> offset > 0)
    requires forall p :: 0 <= p < 40 ==> (lo + hi)[p] == (p < 8 * n && BitAt(m, bus, 8 * addr + p))
    ensures Loaded(m, bus, addr, offset, n, MakeBf(lo, hi, offset))
  {
    hide BitAt, MakeBf;
    var bf := MakeBf(lo, hi, offset);
    PartsOf(lo, hi, offset);
    forall i | 0 <= i < 32 ensures bf.field[i] == (i + offset < 8 * n && BitAt(m, bus, 8 * addr + offset + i)) {
      FieldBit(lo, hi, offset, i);
      LoadedBit(m, bus, addr, n, lo + hi, offset, i);
    }
  }

  lemma PartsOf(lo: Bits, hi: Bits, offset: nat)
    requires |lo| == 32 && |hi| == 8 && offset < 8
    ensures MakeBf(lo, hi, offset).lo == lo && MakeBf(lo, hi, offset).hi == hi
  {
  }

  lemma LoadedBit(m: Memory, bus: Ram.Bus, addr: int, n: nat, w: Bits, offset: nat, i: nat)
    requires |w| == 40 && offset < 8 && i < 32
    requires forall p :: 0 <= p < 40 ==> w[p] == (p < 8 * n && BitAt(m, bus, 8 * addr + p))
    ensures w[i + offset] == (i + offset < 8 * n && BitAt(m, bus, 8 * addr + offset + i))
  {
    hide BitAt;
    assert 8 * addr + (i + offset) == 8 * addr + offset + i;
  }

  lemma FieldBit(lo: Bits, hi: Bits, offset: nat, i: nat)
    requires |lo| == 32 && |hi| == 8 && offset < 8 && i < 32
    ensures MakeBf(lo, hi, offset).field[i] == (lo + hi)[i + offset]
  {
    var low := Zeros(24) + Shr(hi, 8 - offset);
    assert i >= 24 ==> low[i] == Shr(hi, 8 - offset)[i - 24];
  }

  /** `lo` under the bits above the field, `res` below them. */
  function PatchedLow(lo: Bits, offset: nat, res: Bits): (w: Bits)
    requires |lo| == 32 && |res| == 32 && offset < 8
    ensures |w| == 32
  {
    var lomask := if 32 - offset < 32 then Shl(Fill(true, 32), 32 - offset) else Zeros(32);
    Or(And(lo, lomask), Shr(res, offset))
  }

  /** The last `offset` bits of `res` above what is left of `hi`. */
  function PatchedHigh(hi: Bits, offset: nat, res: Bits): (w: Bits)
    requires |hi| == 8 && |res| == 32 && offset < 8
    ensures |w| == 8
  {
    Or(And(hi, Shr(Fill(true, 8), offset)), Shl(res[24..], 8 - offset))
  }

  lemma PatchedLowBit(lo: Bits, offset: nat, res: Bits, i: nat)
    requires |lo| == 32 && |res| == 32 && offset < 8 && i < 32
    ensures PatchedLow(lo, offset, res)[i] == if i >= offset then res[i - offset] else lo[i]
  {
    hide Or, And, Shl, Shr, Fill, Zeros;
    var lomask := if 32 - offset < 32 then Shl(Fill(true, 32), 32 - offset) else Zeros(32);
    assert lomask[i] == (i < offset);
  }

  lemma PatchedHighBit(hi: Bits, offset: nat, res: Bits, j: nat)
    requires |hi| == 8 && |res| == 32 && offset < 8 && j < 8
    ensures PatchedHigh(hi, offset, res)[j] == if j < offset then res[32 + j - offset] else hi[j]
  {
    hide Or, And, Shl, Shr, Fill, Zeros;
    var low := res[24..];
    assert j < offset ==> low[j + 8 - offset] == res[32 + j - offset];
  }

  /** The bytes to store: `res` between the bits to keep. */
  function Patched(bf: Bitfield, offset: nat, res: Bits): (w: Bits)
    requires |bf.lo| == 32 && |bf.hi| == 8 && |res| == 32 && offset < 8
    ensures |w| == 40
  {
    PatchedLow(bf.lo, offset, res) + PatchedHigh(bf.hi, offset, res)
  }

  lemma PatchedBit(bf: Bitfield, offset: nat, res: Bits, p: nat)
    requires |bf.lo| == 32 && |bf.hi| == 8 && |res| == 32 && offset < 8 && p < 40
    ensures Patched(bf, offset, res)[p] == if offset <= p < offset + 32 then res[p - offset] else (bf.lo + bf.hi)[p]
  {
    hide PatchedLow, PatchedHigh;
    if p < 32 {
      PatchedLowBit(bf.lo, offset, res, p);
    } else {
      PatchedHighBit(bf.hi, offset, res, p - 32);
    }
  }

  /** Field bits changed, the rest of the word as loaded: exactly the field in memory changes. */
  lemma StoreReplaces(m: Memory, bus: Ram.Bus, addr: int, offset: nat, bf: Bitfield, res: Bits, field: Bits)
    requires offset < 8 && 1 <= |field| <= 32 && |res| == 32
    requires |bf.field| == 32 && |bf.lo| == 32 && |bf.hi| == 8
    requires Loaded(m, bus, addr, offset, ByteCount(offset, |field|), bf)
    requires forall i :: 0 <= i < 32 ==> res[i] == if i < |field| then field[i] else bf.field[i]
    ensures Replaced(bus, m, WriteBytes(m, bus, addr, Patched(bf, offset, res), ByteCount(offset, |field|)),
                     8 * addr + offset, field)
  {
    hide BitAt, Patched, Replaced, WriteBytes;
    var n, w := ByteCount(offset, |field|), Patched(bf, offset, res);
    assert offset + |field| <= 8 * n <= 40;
    forall p | 0 <= p < 8 * n
      ensures w[p] == if offset <= p < offset + |field| then field[p - offset] else BitAt(m, bus, 8 * addr + p)
    {
      PatchedBit(bf, offset, res, p);
      if offset + |field| <= p < offset + 32 {
        assert bf.field[p - offset] == BitAt(m, bus, 8 * addr + offset + (p - offset));
        assert 8 * addr + offset + (p - offset) == 8 * addr + p;
      }
    }
    WriteReplaces(m, bus, addr, w, n, offset, field);
  }

  /** Data registers as bit strings, condition codes and memory. */
  class Unit {
    const bus: Ram.Bus
    const d: array<Bits>
    var ccr: Ccr
    var memory: Memory

    predicate Valid()
      reads d
    {
      d.Length == 8 && forall i :: 0 <= i < 8 ==> |d[i]| == 32
    }

    /** Load one to five bytes, as few as the field needs. */
    method LoadBitfield(addr: int, offset: nat, width: nat) returns (bf: Bitfield)
      requires offset < 8 && 1 <= width <= 32
      ensures Loaded(memory, bus, addr, offset, ByteCount(offset, width), bf)
    {
      hide Loaded, MakeBf;
      var bcount := (offset + width + 7) / 8;
      BytesAre(memory, bus, addr, bcount);
      if bcount == 1 {
        var lo := ReadBytes(memory, bus, addr, 1);
        MakesLoaded(memory, bus, addr, offset, 1, lo + Zeros(24), Zeros(8));
        return MakeBf(lo + Zeros(24), Zeros(8), offset);
      }
      if bcount < 4 {
        var lo1 := ReadBytes(memory, bus, addr, 2);
        if bcount == 2 {
          MakesLoaded(memory, bus, addr, offset, 2, lo1 + Zeros(16), Zeros(8));
          return MakeBf(lo1 + Zeros(16), Zeros(8), offset);
        }
        var lo2 := ReadBytes(memory, bus, addr + 2, 1);
        MakesLoaded(memory, bus, addr, offset, 3, lo1 + lo2 + Zeros(8), Zeros(8));
        return MakeBf(lo1 + lo2 + Zeros(8), Zeros(8), offset);
      }
      var lo := ReadBytes(memory, bus, addr, 4);
      if bcount == 4 {
        MakesLoaded(memory, bus, addr, offset, 4, lo, Zeros(8));
        return MakeBf(lo, Zeros(8), offset);
      }
      var hi := ReadBytes(memory, bus, addr + 4, 1);
      MakesLoaded(memory, bus, addr, offset, 5, lo, hi);
      return MakeBf(lo, hi, offset);
    }

    /** Store them back. */
    method StoreBitfield(addr: int, offset: nat, width: nat, res: Bits, bf: Bitfield)
      requires offset < 8 && 1 <= width <= 32 && |res| == 32 && |bf.lo| == 32 && |bf.hi| == 8
      modifies this`memory
      ensures memory == WriteBytes(old(memory), bus, addr, Patched(bf, offset, res), ByteCount(offset, width))
    {
      hide PatchedLow, PatchedHigh;
      var bcount := (offset + width + 7) / 8;
      var lo, hi := PatchedLow(bf.lo, offset, res), PatchedHigh(bf.hi, offset, res);
      WriteParts(memory, bus, addr, lo, hi);
      if bcount == 1 {
        memory := PutByte(memory, bus, addr, lo[..8]);
        return;
      }
      if bcount < 4 {
        memory := WriteBytes(memory, bus, addr, lo, 2);
        if bcount == 2 {
          return;
        }
        memory := PutByte(memory, bus, addr + 2, lo[16..24]);
        return;
      }
      memory := WriteBytes(memory, bus, addr, lo, 4);
      if bcount == 4 {
        return;
      }
      memory := PutByte(memory, bus, addr + 4, hi);
    }

    // ---- the instructions ----------------------------------------------------------------------

    /** BFCHG, BFSET or BFCLR. */
    method Modify(op: Change, ea: u32, offset: int, rawWidth: u32)
      requires Valid() && InRange(offset)
      modifies this`memory, this`ccr
      ensures var start, width := 8 * ea as int + offset, Width(rawWidth);
              var field := FieldBits(old(memory), bus, start, width);
              && Replaced(bus, old(memory), memory, start, Changed(op, field))
              && ccr == Ccr(old(ccr).x, field[0], AllZero(field), false, false)
    {
      hide BitAt, Loaded, Patched, Replaced, FieldBits, WriteBytes, Width, PatchEa, Combine, Changed, And, Mask,
           AllZero, ByteCount;
      var width := Width(rawWidth);
      var mask := Mask(width);
      var addr := PatchEa(ea, offset);
      var bitOffset := offset % 8;
      var data := LoadBitfield(addr, bitOffset, width);
      FieldLoaded(memory, bus, ea, offset, width, data);
      MaskedCodes(data.field, width);
      ccr := Ccr(ccr.x, And(data.field, mask)[0], AllZero(And(data.field, mask)), false, false);
      var res := Combine(op, data.field, mask);
      Combined(op, data.field, width);
      ghost var field := FieldBits(memory, bus, 8 * ea as int + offset, width);
      FieldStored(memory, bus, ea, offset, data, res, Changed(op, field));
      StoreBitfield(addr, bitOffset, width, res, data);
    }

    /** BFINS from data register `source`. */
    method Insert(source: nat, ea: u32, offset: int, rawWidth: u32)
      requires Valid() && InRange(offset) && source < 8
      modifies this`memory, this`ccr
      ensures var start, width := 8 * ea as int + offset, Width(rawWidth);
              && Replaced(bus, old(memory), memory, start, d[source][32 - width..])
              && ccr == Ccr(old(ccr).x, d[source][32 - width], AllZero(d[source][32 - width..]), false, false)
    {
      hide BitAt, Loaded, Patched, Replaced, FieldBits, WriteBytes, Width, PatchEa, And, Or, Not, Mask, AllZero,
           ByteCount;
      var width := Width(rawWidth);
      var mask := Mask(width);
      var addr := PatchEa(ea, offset);
      var bitOffset := offset % 8;
      var data := LoadBitfield(addr, bitOffset, width);
      FieldLoaded(memory, bus, ea, offset, width, data);
      var insertBase := Shl(d[source], 32 - width);
      Inserted(data.field, width, d[source]);
      ccr := Ccr(ccr.x, insertBase[0], AllZero(insertBase), false, false);
      var res := Or(And(data.field, Not(mask)), insertBase);
      FieldStored(memory, bus, ea, offset, data, res, d[source][32 - width..]);
      StoreBitfield(addr, bitOffset, width, res, data);
    }

    /** Load a field of a four-byte word and, if it reaches that far, the byte after it. */
    method LoadForExtract(ea: u32, offset: int, width: nat) returns (data: Bits)
      requires -0x8000_0000 <= offset < 0x8000_0000 && 1 <= width <= 32
      ensures |data| == 32 && data[..width] == FieldBits(memory, bus, 8 * ea as int + offset, width)
    {
      hide BitAt, Wrap, MakeBf, FieldBits, ReadBytes;
      var addr, bitOffset := LocateByte(ea, offset);
      var lo := ReadBytes(memory, bus, addr, 4);
      var hi := if bitOffset + width > 32 then ReadBytes(memory, bus, addr as int + 4, 1) else Zeros(8);
      data := MakeBf(lo, hi, bitOffset).field;
      ExtractedField(memory, bus, ea, offset, width, lo, hi);
    }

    /** BFEXTU into data register `dest`. */
    method ExtractUnsigned(dest: nat, ea: u32, offset: int, rawWidth: u32)
      requires Valid() && -0x8000_0000 <= offset < 0x8000_0000 && dest < 8
      modifies d, this`ccr
      ensures var field := FieldBits(memory, bus, 8 * ea as int + offset, Width(rawWidth));
              && d[..] == old(d[..])[dest := Zeros(32 - |field|) + field]
              && ccr == Ccr(old(ccr).x, field[0], AllZero(field), false, false)
    {
      hide Width, FieldBits, BitAt, AllZero;
      var width := Width(rawWidth);
      var data := LoadForExtract(ea, offset, width);
      ShiftedDown(data, width);
      ccr := ccr.(n := data[0]);
      data := Shr(data, 32 - width);
      ccr := Ccr(ccr.x, ccr.n, AllZero(data), false, false);
      d[dest] := data;
    }

    /** BFEXTS into data register `dest`. */
    method ExtractSigned(dest: nat, ea: u32, offset: int, rawWidth: u32)
      requires Valid() && -0x8000_0000 <= offset < 0x8000_0000 && dest < 8
      modifies d, this`ccr
      ensures var field := FieldBits(memory, bus, 8 * ea as int + offset, Width(rawWidth));
              && d[..] == old(d[..])[dest := Fill(field[0], 32 - |field|) + field]
              && ccr == Ccr(old(ccr).x, field[0], AllZero(field), false, false)
    {
      hide Width, FieldBits, BitAt, AllZero;
      var width := Width(rawWidth);
      var data := LoadForExtract(ea, offset, width);
      ShiftedDown(data, width);
      ccr := ccr.(n := data[0]);
      data := Fill(data[0], 32 - width) + data[..width];
      ccr := Ccr(ccr.x, ccr.n, AllZero(data), false, false);
      d[dest] := data;
    }
  }

  /** The byte and the bit in it where a signed bit offset leads. */
  method LocateByte(ea: u32, offset: int) returns (addr: u32, bitOffset: int)
    requires -0x8000_0000 <= offset < 0x8000_0000
    ensures addr == Wrap(ea as int + offset / 8) && bitOffset == offset % 8
  {
    hide Wrap;
    var byteOffset := if offset >= 0 then offset / 8 else -(-offset / 8);
    addr := Plus(ea, byteOffset);
    bitOffset := offset - 8 * byteOffset;
    TruncatedAddress(ea, offset, byteOffset);
    if bitOffset < 0 {
      bitOffset := bitOffset + 8;
      addr := Minus(addr, 1);
    }
  }

  /** Division rounded toward zero, corrected to round down. */
  lemma TruncatedAddress(ea: u32, offset: int, byteOffset: int)
    requires byteOffset == if offset >= 0 then offset / 8 else -(-offset / 8)
    ensures var rest := offset - 8 * byteOffset;
            && -8 < rest < 8
            && (rest >= 0 ==> rest == offset % 8 && Wrap(ea as int + byteOffset) == Wrap(ea as int + offset / 8))
            && (rest < 0 ==>
                  && rest + 8 == offset % 8
                  && Wrap(Wrap(ea as int + byteOffset) - 1) == Wrap(ea as int + offset / 8))
  {
    if offset - 8 * byteOffset < 0 {
      WrapAgain(ea as int + byteOffset, 1);
      assert offset / 8 == byteOffset - 1;
    } else {
      assert offset / 8 == byteOffset;
    }
  }

  lemma ExtractedField(m: Memory, bus: Ram.Bus, ea: u32, offset: int, width: nat, lo: Bits, hi: Bits)
    requires 1 <= width <= 32
    requires var byte: int := Wrap(ea as int + offset / 8);
             && lo == ReadBytes(m, bus, byte, 4)
             && hi == if offset % 8 + width > 32 then ReadBytes(m, bus, byte + 4, 1) else Zeros(8)
    ensures MakeBf(lo, hi, offset % 8).field[..width] == FieldBits(m, bus, 8 * ea as int + offset, width)
  {
    hide BitAt, MakeBf, Wrap, ReadBytes;
    var start := 8 * ea as int + offset;
    var addr, o := ea as int + offset / 8, offset % 8;
    var f := MakeBf(lo, hi, o).field;
    assert 8 * addr + o == start;
    forall i | 0 <= i < width ensures f[i] == BitFrom(m, bus, start, i) {
      FieldBit(lo, hi, o, i);
      if o + i < 32 {
        ReadBit(m, bus, Wrap(addr), 4, o + i);
      } else {
        ReadBit(m, bus, Wrap(addr) as int + 4, 1, o + i - 32);
        assert 8 * (Wrap(addr) as int + 4) + (o + i - 32) == 8 * Wrap(addr) + (o + i);
      }
      BitOfWrap(m, bus, addr, o + i);
      assert 8 * addr + (o + i) == start + i;
    }
  }

  /** The top bits, moved down under zeros or copies of the sign. */
  lemma ShiftedDown(data: Bits, width: nat)
    requires |data| == 32 && 1 <= width <= 32
    ensures var field := data[..width];
            && field[0] == data[0]
            && Shr(data, 32 - width) == Zeros(32 - width) + field
            && AllZero(Zeros(32 - width) + field) == AllZero(field)
            && AllZero(Fill(field[0], 32 - width) + field) == AllZero(field)
  {
    hide AllZero, Zeros;
    var field := data[..width];
    assert 32 - (32 - width) == width;
    ZeroUnder(false, 32 - width, field);
    ZeroUnder(field[0], 32 - width, field);
    ZerosAre(32 - width);
  }

  lemma ZerosAre(k: nat)
    ensures Zeros(k) == Fill(false, k)
  {
  }

  lemma ZeroUnder(b: bool, k: nat, field: Bits)
    requires field != [] && (b ==> b == field[0])
    ensures AllZero(Fill(b, k) + field) == AllZero(field)
  {
    hide Fill;
    var w := Fill(b, k) + field;
    assert forall i :: 0 <= i < |field| ==> field[i] == w[k + i];
    assert b ==> !AllZero(field);
  }

  // ---- an inserted field reads back ----------------------------------------------------------

  /** What was put into a field is what the field then holds. */
  lemma ReadsBack(bus: Ram.Bus, m: Memory, m': Memory, p: int, field: Bits)
    requires Replaced(bus, m, m', p, field) && |field| <= 32
    ensures FieldBits(m', bus, p, |field|) == field
  {
    hide BitAt;
    assert forall i :: 0 <= i < |field| ==> BitFrom(m', bus, p, i) == field[i];
  }

  /** Fields that do not meet the changed one keep their value. */
  lemma OthersKept(bus: Ram.Bus, m: Memory, m': Memory, p: int, field: Bits, q: int, n: nat)
    requires Replaced(bus, m, m', p, field) && p + |field| <= q && q + n <= p + 8 * bus
    ensures FieldBits(m', bus, q, n) == FieldBits(m, bus, q, n)
  {
    hide BitAt;
    forall i | 0 <= i < n ensures BitFrom(m', bus, q, i) == BitFrom(m, bus, q, i) {
      assert BitFrom(m', bus, p, q + i - p) == BitFrom(m, bus, p, q + i - p);
    }
  }

  /** BFINS, then BFEXTU or BFEXTS of the same field: the register's low bits, zero- or sign-extended. */
  method InsertThenExtract(u: Unit, isSigned: bool, source: nat, dest: nat, ea: u32, offset: int, rawWidth: u32)
    requires u.Valid() && InRange(offset) && source < 8 && dest < 8
    modifies u`memory, u`ccr, u.d
    ensures var field := old(u.d[source])[32 - Width(rawWidth)..];
            u.d[..] == old(u.d[..])[dest := Fill(isSigned && field[0], 32 - |field|) + field]
  {
    hide BitAt, Replaced, FieldBits, Width, AllZero;
    u.Insert(source, ea, offset, rawWidth);
    ReadsBack(u.bus, old(u.memory), u.memory, 8 * ea as int + offset, old(u.d[source])[32 - Width(rawWidth)..]);
    if isSigned {
      u.ExtractSigned(dest, ea, offset, rawWidth);
    } else {
      u.ExtractUnsigned(dest, ea, offset, rawWidth);
    }
  }

  /** Storing a word and a byte in the parts the store uses. */
  lemma WriteParts(m: Memory, bus: Ram.Bus, addr: int, lo: Bits, hi: Bits)
    requires |lo| == 32 && |hi| == 8
    ensures WriteBytes(m, bus, addr, lo + hi, 1) == PutByte(m, bus, addr, lo[..8])
    ensures WriteBytes(m, bus, addr, lo + hi, 2) == WriteBytes(m, bus, addr, lo, 2)
    ensures WriteBytes(m, bus, addr, lo + hi, 3) == PutByte(WriteBytes(m, bus, addr, lo, 2), bus, addr + 2, lo[16..24])
    ensures WriteBytes(m, bus, addr, lo + hi, 4) == WriteBytes(m, bus, addr, lo, 4)
    ensures WriteBytes(m, bus, addr, lo + hi, 5) == PutByte(WriteBytes(m, bus, addr, lo, 4), bus, addr + 4, hi)
  {
    hide PutByte;
    WritePrefix(m, bus, addr, lo, hi, 2);
    WritePrefix(m, bus, addr, lo, hi, 4);
    assert (lo + hi)[0..8] == lo[..8] && (lo + hi)[16..24] == lo[16..24] && (lo + hi)[32..40] == hi;
    assert WriteBytes(m, bus, addr, lo + hi, 0) == m;
  }

  lemma {:induction false} WritePrefix(m: Memory, bus: Ram.Bus, addr: int, lo: Bits, hi: Bits, n: nat)
    requires 8 * n <= |lo|
    ensures WriteBytes(m, bus, addr, lo + hi, n) == WriteBytes(m, bus, addr, lo, n)
  {
    hide PutByte;
    if n > 0 {
      WritePrefix(m, bus, addr, lo, hi, n - 1);
      assert (lo + hi)[8 * (n - 1)..8 * n] == lo[8 * (n - 1)..8 * n];
    }
  }

  // ---- operands ------------------------------------------------------------------------------

  datatype Change = Complement | Set | Clear

  function Changed(op: Change, field: Bits): (r: Bits)
    ensures |r| == |field|
    ensures forall i :: 0 <= i < |r| ==> r[i] == (op.Set? || (op.Complement? && !field[i]))
  {
    match op
    case Complement => Not(field)
    case Set => Fill(true, |field|)
    case Clear => Zeros(|field|)
  }

  /** Widths count from 1 to 32, with 32 for 0. */
  function Width(raw: u32): (w: nat)
    ensures w == if raw % 32 == 0 then 32 else raw % 32
  {
    Minus(raw, 1) % 32 + 1
  }

  /** Ones in the top `width` bits. */
  function Mask(width: nat): (w: Bits)
    requires 1 <= width <= 32
    ensures |w| == 32
  {
    Shl(Fill(true, 32), 32 - width)
  }

  /** The field's new word. */
  function Combine(op: Change, field: Bits, mask: Bits): (r: Bits)
    requires |field| == |mask| == 32
    ensures |r| == 32
  {
    match op
    case Complement => Xor(field, mask)
    case Set => Or(field, mask)
    case Clear => And(field, Not(mask))
  }

  lemma Combined(op: Change, field: Bits, width: nat)
    requires |field| == 32 && 1 <= width <= 32
    ensures var res, new_ := Combine(op, field, Mask(width)), Changed(op, field[..width]);
            forall i :: 0 <= i < 32 ==> res[i] == if i < width then new_[i] else field[i]
  {
    hide Xor, Or, And, Not, Shl, Fill, Zeros;
  }

  /** A register's low bits, moved to the top of a word. */
  lemma Inserted(field: Bits, width: nat, source: Bits)
    requires |field| == |source| == 32 && 1 <= width <= 32
    ensures var base, new_ := Shl(source, 32 - width), source[32 - width..];
            var res := Or(And(field, Not(Mask(width))), base);
            && base[0] == new_[0] && AllZero(base) == AllZero(new_)
            && forall i :: 0 <= i < 32 ==> res[i] == if i < width then new_[i] else field[i]
  {
    hide And, Or, Not, Shl, Fill, Zeros;
    var base, new_ := Shl(source, 32 - width), source[32 - width..];
    assert forall i :: 0 <= i < width ==> new_[i] == base[i];
  }

  lemma MaskedCodes(field: Bits, width: nat)
    requires |field| == 32 && 1 <= width <= 32
    ensures And(field, Mask(width))[0] == field[..width][0]
    ensures AllZero(And(field, Mask(width))) == AllZero(field[..width])
  {
    hide And, Shl, Fill, Zeros;
    var w := And(field, Mask(width));
    assert forall i :: 0 <= i < width ==> field[..width][i] == w[i];
  }

  /** Bit offsets for which the byte address is computed without signed overflow. */
  predicate InRange(offset: int) {
    -0x7FFF_FFF8 <= offset < 0x8000_0000
  }

  function PatchEa(ea: u32, offset: int): u32
    requires InRange(offset)
  {
    Wrap(ea as int + if offset >= 0 then offset / 8 else -((7 - offset) / 8))
  }

  /** Rounding toward minus infinity, and the bit left over. */
  lemma PatchedAddress(ea: u32, offset: int)
    requires InRange(offset)
    ensures PatchEa(ea, offset) == Wrap(ea as int + offset / 8)
    ensures 8 * (ea as int + offset / 8) + offset % 8 == 8 * ea as int + offset
  {
  }

  /** The same address where `7 - offset` wraps around in 32 bits before it is divided, toward zero. */
  function WrappedPatchEa(ea: u32, offset: int): u32 {
    var n := 7 - offset;
    var wrapped := if n >= 0x8000_0000 then n - TWO_32 else n;
    Wrap(ea as int + if offset >= 0 then offset / 8 else -(if wrapped >= 0 then wrapped / 8 else -(-wrapped / 8)))
  }

  /** Wrapping gives the byte that holds the field exactly when `7 - offset` does not overflow: for the
      eight lowest offsets it is some half a gigabyte off. */
  lemma PatchExact(ea: u32, offset: int)
    requires -0x8000_0000 <= offset < 0x8000_0000
    ensures WrappedPatchEa(ea, offset) == Wrap(ea as int + offset / 8) <==> InRange(offset)
  {
    if !InRange(offset) {
      assert offset / 8 == -0x1000_0000;
      HalfGigabyteOff(ea, if offset == -0x7FFF_FFF9 then 0x1000_0000 else 0x0FFF_FFFF);
    }
  }

  lemma HalfGigabyteOff(ea: u32, n: int)
    requires 0x0FFF_FFFF <= n <= 0x1000_0000
    ensures Wrap(ea as int + n) != Wrap(ea as int - 0x1000_0000)
  {
  }

  lemma BitOfWrap(m: Memory, bus: Ram.Bus, a: int, p: int)
    ensures BitAt(m, bus, 8 * Wrap(a) + p) == BitAt(m, bus, 8 * a + p)
  {
    hide Wrap, Ram.Cell;
    var j, i := p / 8, p % 8;
    ByteOfBit(Wrap(a) + j, i);
    ByteOfBit(a + j, i);
    assert 8 * (Wrap(a) + j) + i == 8 * Wrap(a) + p && 8 * (a + j) + i == 8 * a + p;
    Ram.CellOfWrap(bus, a, j);
  }

  /** The loaded field's top bits are the field in memory. */
  lemma FieldLoaded(m: Memory, bus: Ram.Bus, ea: u32, offset: int, width: nat, bf: Bitfield)
    requires InRange(offset) && 1 <= width <= 32
    requires Loaded(m, bus, PatchEa(ea, offset), offset % 8, ByteCount(offset % 8, width), bf)
    ensures |bf.field| == 32 && |bf.lo| == 32 && |bf.hi| == 8
    ensures bf.field[..width] == FieldBits(m, bus, 8 * ea as int + offset, width)
  {
    hide BitAt, PatchEa, Wrap;
    var start := 8 * ea as int + offset;
    PatchedAddress(ea, offset);
    var addr := ea as int + offset / 8;
    forall i | 0 <= i < width ensures bf.field[i] == BitFrom(m, bus, start, i) {
      BitOfWrap(m, bus, addr, offset % 8 + i);
      assert 8 * Wrap(addr) + offset % 8 + i == 8 * Wrap(addr) + (offset % 8 + i);
      assert 8 * addr + (offset % 8 + i) == start + i;
    }
  }

  lemma FieldStored(m: Memory, bus: Ram.Bus, ea: u32, offset: int, bf: Bitfield, res: Bits, field: Bits)
    requires InRange(offset) && 1 <= |field| <= 32 && |res| == 32
    requires |bf.field| == 32 && |bf.lo| == 32 && |bf.hi| == 8
    requires Loaded(m, bus, PatchEa(ea, offset), offset % 8, ByteCount(offset % 8, |field|), bf)
    requires forall i :: 0 <= i < 32 ==> res[i] == if i < |field| then field[i] else bf.field[i]
    ensures Replaced(bus, m, WriteBytes(m, bus, PatchEa(ea, offset), Patched(bf, offset % 8, res),
        ByteCount(offset % 8, |field|)),
                     8 * ea as int + offset, field)
  {
    hide BitAt, PatchEa, Wrap, Loaded, Patched, WriteBytes;
    var start := 8 * ea as int + offset;
    PatchedAddress(ea, offset);
    var addr, o := ea as int + offset / 8, offset % 8;
    var m' := WriteBytes(m, bus, PatchEa(ea, offset), Patched(bf, o, res), ByteCount(o, |field|));
    StoreReplaces(m, bus, PatchEa(ea, offset), o, bf, res, field);
    var there: int := 8 * PatchEa(ea, offset) as int + o;
    assert Replaced(bus, m, m', there, field);
    forall k | 0 <= k < 8 * bus
      ensures BitFrom(m', bus, start, k) == if k < |field| then field[k] else BitFrom(m, bus, start, k)
    {
      BitOfWrap(m, bus, addr, o + k);
      BitOfWrap(m', bus, addr, o + k);
      assert 8 * Wrap(addr) + (o + k) == there + k && 8 * addr + (o + k) == start + k;
      assert BitFrom(m', bus, there, k) == if k < |field| then field[k] else BitFrom(m, bus, there, k);
    }
  }

  /** Reading in parts. */
  lemma BytesAre(m: Memory, bus: Ram.Bus, addr: int, n: nat)
    requires 1 <= n <= 5
    ensures forall p :: 0 <= p < 8 * n ==> ReadBytes(m, bus, addr, n)[p] == BitAt(m, bus, 8 * addr + p)
    ensures n == 3 ==> ReadBytes(m, bus, addr, 3) == ReadBytes(m, bus, addr, 2) + ReadBytes(m, bus, addr + 2, 1)
    ensures n == 5 ==> ReadBytes(m, bus, addr, 5) == ReadBytes(m, bus, addr, 4) + ReadBytes(m, bus, addr + 4, 1)
  {
    hide BitAt;
    forall p | 0 <= p < 8 * n ensures ReadBytes(m, bus, addr, n)[p] == BitAt(m, bus, 8 * addr + p) {
      ReadBit(m, bus, addr, n, p);
    }
    assert ReadBytes(m, bus, addr + 2, 1) == [] + ByteAt(m, bus, addr + 2);
    assert ReadBytes(m, bus, addr + 4, 1) == [] + ByteAt(m, bus, addr + 4);
  }
}
