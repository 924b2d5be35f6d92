/** The unified test-vector format: the converter that writes it and the loader that reads it. */
module Sst {
  import opened Words
  import Ram

  type Bytes = seq<Ram.u8>

  const NUM_REGS: nat := 19
  const MAX_RAM: nat := 512
  const MAX_NAME: nat := 64
  const MAX_MNEMONIC: nat := 32
  const MAGIC: Bytes := [0x53, 0x53, 0x54, 0x31]

  /** Register and RAM values are masked when they are written. */
  datatype Cell = Cell(addr: u32, value: int)

  datatype Snapshot = Snapshot(regs: seq<int>, ram: seq<Cell>)

  datatype Vector = Vector(name: Bytes, initial: Snapshot, final_: Snapshot)

  datatype File = File(mnemonic: Bytes, source: Ram.u8, vectors: seq<Vector>)

  /** What the writer accepts: `struct.pack` refuses longer mnemonics and counts. */
  predicate Writable(f: File) {
    && |f.mnemonic| < 0x100 && |f.vectors| < TWO_32
    && forall v :: v in f.vectors ==> WritableVector(v)
  }

  predicate WritableVector(v: Vector) {
    && |v.initial.regs| == |v.final_.regs| == NUM_REGS
    && |v.initial.ram| < 0x1_0000 && |v.final_.ram| < 0x1_0000
  }

  // ---- writing -------------------------------------------------------------------------------

  /** A number's `n` low bytes, least significant first. */
  function Little(v: nat, n: nat): Bytes {
    if n == 0 then [] else [v % 0x100] + Little(v / 0x100, n - 1)
  }

  function Longs(ws: seq<int>): Bytes {
    if ws == [] then [] else Little(Wrap(ws[0]), 4) + Longs(ws[1..])
  }

  function Cells(cs: seq<Cell>): Bytes {
    if cs == [] then [] else Little(cs[0].addr, 4) + ([cs[0].value % 0x100] + Cells(cs[1..]))
  }

  function Prefix(b: Bytes, n: nat): Bytes {
    if |b| <= n then b else b[..n]
  }

  /** Name, both register sets, both counts, both RAM lists. */
  function VectorBytes(v: Vector): Bytes
    requires WritableVector(v)
  {
    var name := Prefix(v.name, MAX_NAME - 1);
    [|name|] + (name + (Longs(v.initial.regs) + (Longs(v.final_.regs)
    + (Little(|v.initial.ram|, 2) + (Little(|v.final_.ram|, 2) + (Cells(v.initial.ram) + Cells(v.final_.ram)))))))
  }

  function VectorsBytes(vs: seq<Vector>): Bytes
    requires forall v :: v in vs ==> WritableVector(v)
  {
    if vs == [] then [] else VectorBytes(vs[0]) + VectorsBytes(vs[1..])
  }

  function FileBytes(f: File): Bytes
    requires Writable(f)
  {
    MAGIC + (Little(|f.vectors|, 4) + ([f.source, |f.mnemonic|] + (f.mnemonic + VectorsBytes(f.vectors))))
  }

  // ---- reading -------------------------------------------------------------------------------

  /** A value read and the bytes after it; None when the file ends too early, where the loader goes on
      with indeterminate values. */
  type Read<T> = Option<(T, Bytes)>

  /** `n` bytes as they are. */
  function ReadBytes(b: Bytes, n: nat): Read<Bytes> {
    if |b| < n then None else Some((b[..n], b[n..]))
  }

  /** `n` bytes as a little-endian number. */
  function ReadLittle(b: Bytes, n: nat): (r: Read<nat>)
    ensures r.Some? ==> n == 1 ==> r.value.0 < 0x100
  {
    if n == 0 then Some((0, b))
    else if b == [] then None
    else
      var r := ReadLittle(b[1..], n - 1);
      if r.None? then None else Some((b[0] + 0x100 * r.value.0, r.value.1))
  }

  function ReadLongs(b: Bytes, n: nat): (r: Read<seq<nat>>)
    ensures r.Some? ==> |r.value.0| == n
    decreases n
  {
    if n == 0 then Some(([], b))
    else
      var w := ReadLittle(b, 4);
      if w.None? then None
      else
        var ws := ReadLongs(w.value.1, n - 1);
        if ws.None? then None else Some(([w.value.0] + ws.value.0, ws.value.1))
  }

  datatype RawCell = RawCell(addr: nat, value: nat)

  function ReadCells(b: Bytes, n: nat): (r: Read<seq<RawCell>>)
    ensures r.Some? ==> |r.value.0| == n
    decreases n
  {
    if n == 0 then Some(([], b))
    else
      var a := ReadLittle(b, 4);
      if a.None? then None
      else
        var v := ReadLittle(a.value.1, 1);
        if v.None? then None
        else
          var cs := ReadCells(v.value.1, n - 1);
          if cs.None? then None else Some(([RawCell(a.value.0, v.value.0)] + cs.value.0, cs.value.1))
  }

  /** A vector as the loader's structure holds it. */
  datatype Loaded = Loaded(name: Bytes, initial: seq<nat>, final_: seq<nat>,
                           initialRam: seq<RawCell>, finalRam: seq<RawCell>)

  datatype LoadedFile = LoadedFile(source: nat, mnemonic: Bytes, vectors: seq<Loaded>)

  function FirstCells(cs: seq<RawCell>): seq<RawCell> {
    if |cs| <= MAX_RAM then cs else cs[..MAX_RAM]
  }

  /** The length of a name, cut to what its field holds; the loader reads no more than that. */
  function CutTo(n: nat, max: nat): nat
    requires max > 0
  {
    if n >= max then max - 1 else n
  }

  function ReadVector(b: Bytes): Read<Loaded> {
    var length := ReadLittle(b, 1);
    if length.None? then None
    else
      var name := ReadBytes(length.value.1, CutTo(length.value.0, MAX_NAME));
      if name.None? then None
      else
        var initial := ReadLongs(name.value.1, NUM_REGS);
        if initial.None? then None
        else
          var final_ := ReadLongs(initial.value.1, NUM_REGS);
          if final_.None? then None else ReadRam(name.value.0, initial.value.0, final_.value.0, final_.value.1)
  }

  function ReadRam(name: Bytes, initial: seq<nat>, final_: seq<nat>, b: Bytes): Read<Loaded> {
    var n := ReadLittle(b, 2);
    if n.None? then None
    else
      var m := ReadLittle(n.value.1, 2);
      if m.None? then None
      else
        var first := ReadCells(m.value.1, n.value.0);
        if first.None? then None
        else
          var second := ReadCells(first.value.1, m.value.0);
          if second.None? then None
          else
            var v := Loaded(name, initial, final_, FirstCells(first.value.0), FirstCells(second.value.0));
            Some((v, second.value.1))
  }

  function ReadVectors(b: Bytes, n: nat): (r: Read<seq<Loaded>>)
    ensures r.Some? ==> |r.value.0| == n
    decreases n
  {
    if n == 0 then Some(([], b))
    else
      var v := ReadVector(b);
      if v.None? then None
      else
        var vs := ReadVectors(v.value.1, n - 1);
        if vs.None? then None else Some(([v.value.0] + vs.value.0, vs.value.1))
  }

  /** The header: vector count, source, and the mnemonic with what follows it. */
  function ReadHeader(b: Bytes): Read<(nat, nat, Bytes)> {
    var n := ReadLittle(b, 4);
    if n.None? then None
    else
      var source := ReadLittle(n.value.1, 1);
      if source.None? then None
      else
        var length := ReadLittle(source.value.1, 1);
        if length.None? then None
        else
          var name := ReadBytes(length.value.1, CutTo(length.value.0, MAX_MNEMONIC));
          if name.None? then None else Some(((n.value.0, source.value.0, name.value.0), name.value.1))
  }

  /** A file that does not open with the magic number is refused. */
  datatype Outcome = Refused | Short | File_(file: LoadedFile, unread: Bytes)

  function Load(b: Bytes): Outcome {
    if |b| < 4 || b[..4] != MAGIC then Refused
    else
      var header := ReadHeader(b[4..]);
      if header.None? then Short
      else
        var (n, source, mnemonic) := header.value.0;
        var vectors := ReadVectors(header.value.1, n);
        if vectors.None? then Short else File_(LoadedFile(source, mnemonic, vectors.value.0), vectors.value.1)
  }

  // ---- what the loader should make of a file -------------------------------------------------

  function Expected(f: File): LoadedFile {
    LoadedFile(f.source, f.mnemonic, ExpectedVectors(f.vectors))
  }

  function ExpectedVectors(vs: seq<Vector>): seq<Loaded> {
    if vs == [] then [] else [ExpectedVector(vs[0])] + ExpectedVectors(vs[1..])
  }

  /** Names cut to 63 bytes, and the first 512 RAM entries. */
  function ExpectedVector(v: Vector): Loaded {
    Loaded(Prefix(v.name, MAX_NAME - 1), Wrapped(v.initial.regs), Wrapped(v.final_.regs),
           FirstCells(Raw(v.initial.ram)), FirstCells(Raw(v.final_.ram)))
  }

  function Wrapped(ws: seq<int>): (r: seq<nat>)
    ensures |r| == |ws|
  {
    if ws == [] then [] else [Wrap(ws[0])] + Wrapped(ws[1..])
  }

  function Raw(cs: seq<Cell>): (r: seq<RawCell>)
    ensures |r| == |cs|
  {
    if cs == [] then [] else [RawCell(cs[0].addr, cs[0].value % 0x100)] + Raw(cs[1..])
  }

  // ---- where things are in the file ----------------------------------------------------------

  /** Four bytes of `b` from offset `i` as a number, least significant first. */
  function LongAt(b: Bytes, i: nat): int
    requires i + 4 <= |b|
  {
    b[i] as int + 0x100 * b[i + 1] as int + 0x1_0000 * b[i + 2] as int + 0x100_0000 * b[i + 3] as int
  }

  function WordAt(b: Bytes, i: nat): int
    requires i + 2 <= |b|
  {
    b[i] as int + 0x100 * b[i + 1] as int
  }

  lemma FourBytes(v: u32)
    ensures |Little(v, 4)| == 4 && LongAt(Little(v, 4), 0) == v
  {
    var a, b, c := v / 0x100, v / 0x100 / 0x100, v / 0x100 / 0x100 / 0x100;
    assert Little(c, 1) == [c % 0x100] + Little(c / 0x100, 0);
    assert Little(b, 2) == [b % 0x100] + Little(c, 1);
    assert Little(a, 3) == [a % 0x100] + Little(b, 2);
    assert Little(v, 4) == [v % 0x100] + Little(a, 3);
  }

  lemma TwoBytes(v: nat)
    requires v < 0x1_0000
    ensures |Little(v, 2)| == 2 && WordAt(Little(v, 2), 0) == v
  {
    assert Little(v / 0x100, 1) == [v / 0x100 % 0x100] + Little(v / 0x100 / 0x100, 0);
    assert Little(v, 2) == [v % 0x100] + Little(v / 0x100, 1);
  }

  lemma {:induction false} LongsAre(ws: seq<int>)
    ensures |Longs(ws)| == 4 * |ws|
    ensures forall i :: 0 <= i < |ws| ==> LongAt(Longs(ws), 4 * i) == Wrap(ws[i])
  {
    hide Little, Wrap, LongAt;
    if ws != [] {
      var first, rest := Little(Wrap(ws[0]), 4), Longs(ws[1..]);
      FourBytes(Wrap(ws[0]));
      LongsAre(ws[1..]);
      forall i | 0 <= i < |ws| ensures LongAt(Longs(ws), 4 * i) == Wrap(ws[i]) {
        if i == 0 {
          LongInside([], first, rest, 0);
        } else {
          LongInside(first, rest, [], 4 * (i - 1));
        }
      }
    }
  }

  /** A number in the middle of a file. */
  lemma LongInside(before: Bytes, b: Bytes, after: Bytes, i: nat)
    requires i + 4 <= |b|
    ensures LongAt(before + b + after, |before| + i) == LongAt(b, i)
    ensures before == [] ==> before + b + after == b + after
    ensures after == [] ==> before + b + after == before + b
  {
  }

  lemma {:induction false} CellsAre(cs: seq<Cell>)
    ensures |Cells(cs)| == 5 * |cs|
    ensures forall i :: 0 <= i < |cs| ==>
      LongAt(Cells(cs), 5 * i) == cs[i].addr && Cells(cs)[5 * i + 4] == cs[i].value % 0x100
  {
    hide Little, LongAt;
    if cs != [] {
      var first: Bytes, rest := Little(cs[0].addr, 4) + [cs[0].value % 0x100], Cells(cs[1..]);
      FourBytes(cs[0].addr);
      CellsAre(cs[1..]);
      assert Cells(cs) == first + rest;
      LongInside([], Little(cs[0].addr, 4), [cs[0].value % 0x100], 0);
      forall i | 0 <= i < |cs|
        ensures LongAt(Cells(cs), 5 * i) == cs[i].addr && Cells(cs)[5 * i + 4] == cs[i].value % 0x100
      {
        if i == 0 {
          LongInside([], first, rest, 0);
        } else {
          LongInside(first, rest, [], 5 * (i - 1));
          assert Cells(cs)[5 * i + 4] == rest[5 * (i - 1) + 4];
        }
      }
    }
  }

  /** The header: "SST1", the vector count, the source, the mnemonic's length and the mnemonic; then the vectors. */
  lemma HeaderLayout(f: File)
    requires Writable(f)
    ensures var b, n := FileBytes(f), |f.mnemonic|;
            && |b| >= 10 + n && b[..4] == [0x53, 0x53, 0x54, 0x31]
            && LongAt(b, 4) == |f.vectors| && b[8] == f.source && b[9] == n
            && b[10..10 + n] == f.mnemonic && b[10 + n..] == VectorsBytes(f.vectors)
  {
    hide Little, VectorsBytes, LongAt;
    var rest: Bytes := [f.source, |f.mnemonic|] + (f.mnemonic + VectorsBytes(f.vectors));
    FourBytes(|f.vectors|);
    assert FileBytes(f) == MAGIC + Little(|f.vectors|, 4) + rest;
    LongInside(MAGIC, Little(|f.vectors|, 4), rest, 0);
  }

  /** A vector: the name's length and the name, 19 registers before and 19 after as longwords, both RAM counts as
      words, then the RAM entries, each an address and a byte. */
  lemma VectorLayout(v: Vector)
    requires WritableVector(v)
    ensures var b, n, k := VectorBytes(v), if |v.name| < 64 then |v.name| else 63, |v.initial.ram|;
            && |b| == 157 + n + 5 * (k + |v.final_.ram|)
            && b[0] == n && b[1..1 + n] == v.name[..n]
            && (forall i :: 0 <= i < 19 ==> LongAt(b, 1 + n + 4 * i) == Wrap(v.initial.regs[i])
                                            && LongAt(b, 77 + n + 4 * i) == Wrap(v.final_.regs[i]))
            && WordAt(b, 153 + n) == k && WordAt(b, 155 + n) == |v.final_.ram|
            && (forall j :: 0 <= j < k ==>
                  && LongAt(b, 157 + n + 5 * j) == v.initial.ram[j].addr
                  && b[161 + n + 5 * j] == v.initial.ram[j].value % 0x100)
            && (forall j :: 0 <= j < |v.final_.ram| ==>
                  && LongAt(b, 157 + n + 5 * k + 5 * j) == v.final_.ram[j].addr
                  && b[161 + n + 5 * k + 5 * j] == v.final_.ram[j].value % 0x100)
  {
    hide Little, Longs, Cells, LongAt, WordAt, VectorBytes, Wrap;
    var b, n, k := VectorBytes(v), if |v.name| < 64 then |v.name| else 63, |v.initial.ram|;
    VectorParts(v);
    LongsAre(v.initial.regs);
    LongsAre(v.final_.regs);
    CellsAre(v.initial.ram);
    CellsAre(v.final_.ram);
    TwoBytes(|v.initial.ram|);
    TwoBytes(|v.final_.ram|);
    WordOfPart(b, 153 + n, 155 + n);
    WordOfPart(b, 155 + n, 157 + n);
    forall i | 0 <= i < 19
      ensures LongAt(b, 1 + n + 4 * i) == Wrap(v.initial.regs[i]) && LongAt(b, 77 + n + 4 * i) == Wrap(v.final_.regs[i])
    {
      LongOfPart(b, 1 + n, 77 + n, 4 * i);
      LongOfPart(b, 77 + n, 153 + n, 4 * i);
    }
    forall j | 0 <= j < k
      ensures LongAt(b, 157 + n + 5 * j) == v.initial.ram[j].addr
           && b[161 + n + 5 * j] == v.initial.ram[j].value % 0x100
    {
      CellOfPart(b, 157 + n, 157 + n + 5 * k, 5 * j);
    }
    assert b[157 + n + 5 * k..|b|] == b[157 + n + 5 * k..];
    forall j | 0 <= j < |v.final_.ram|
      ensures LongAt(b, 157 + n + 5 * k + 5 * j) == v.final_.ram[j].addr
           && b[161 + n + 5 * k + 5 * j] == v.final_.ram[j].value % 0x100
    {
      CellOfPart(b, 157 + n + 5 * k, |b|, 5 * j);
    }
  }

  lemma LongOfPart(b: Bytes, lo: nat, hi: nat, i: nat)
    requires lo <= hi <= |b| && i + 4 <= hi - lo
    ensures LongAt(b, lo + i) == LongAt(b[lo..hi], i)
  {
  }

  lemma WordOfPart(b: Bytes, lo: nat, hi: nat)
    requires hi == lo + 2 <= |b|
    ensures WordAt(b, lo) == WordAt(b[lo..hi], 0)
  {
  }

  lemma CellOfPart(b: Bytes, lo: nat, hi: nat, i: nat)
    requires lo <= hi <= |b| && i + 5 <= hi - lo
    ensures LongAt(b, lo + i) == LongAt(b[lo..hi], i) && b[lo + i + 4] == b[lo..hi][i + 4]
  {
  }

  lemma VectorParts(v: Vector)
    requires WritableVector(v)
    ensures var b, n, k := VectorBytes(v), if |v.name| < 64 then |v.name| else 63, |v.initial.ram|;
            && |b| == 157 + n + 5 * (k + |v.final_.ram|)
            && b[0] == n && b[1..1 + n] == v.name[..n]
            && b[1 + n..77 + n] == Longs(v.initial.regs) && b[77 + n..153 + n] == Longs(v.final_.regs)
            && b[153 + n..155 + n] == Little(k, 2) && b[155 + n..157 + n] == Little(|v.final_.ram|, 2)
            && b[157 + n..157 + n + 5 * k] == Cells(v.initial.ram) && b[157 + n + 5 * k..] == Cells(v.final_.ram)
  {
    hide Little, Longs, Cells, LongAt, WordAt;
    LongsAre(v.initial.regs);
    LongsAre(v.final_.regs);
    CellsAre(v.initial.ram);
    CellsAre(v.final_.ram);
    TwoBytes(|v.initial.ram|);
    TwoBytes(|v.final_.ram|);
    var n := if |v.name| < 64 then |v.name| else 63;
    var head: Bytes := [n] + v.name[..n];
    var a, z, c, d := Longs(v.initial.regs), Longs(v.final_.regs), Cells(v.initial.ram), Cells(v.final_.ram);
    var k, l := Little(|v.initial.ram|, 2), Little(|v.final_.ram|, 2);
    assert VectorBytes(v) == head + a + z + k + l + c + d;
    Slices(head, a, z, k, l, c, d);
  }

  lemma Slices(h: Bytes, a: Bytes, z: Bytes, k: Bytes, l: Bytes, c: Bytes, d: Bytes)
    ensures var b := h + a + z + k + l + c + d;
            var i1, i2 := |h| + |a|, |h| + |a| + |z|;
            var i3, i4 := i2 + |k|, i2 + |k| + |l|;
            var i5 := i4 + |c|;
            && |b| == i5 + |d| && b[..|h|] == h && b[|h|..i1] == a && b[i1..i2] == z && b[i2..i3] == k && b[i3..i4] == l
            && b[i4..i5] == c && b[i5..] == d
  {
  }

  // ---- reading back what was written ---------------------------------------------------------

  function Pow256(n: nat): nat {
    if n == 0 then 1 else 0x100 * Pow256(n - 1)
  }

  lemma {:induction false} ReadsLittle(v: nat, n: nat, rest: Bytes)
    requires v < Pow256(n)
    ensures ReadLittle(Little(v, n) + rest, n) == Some((v, rest))
    decreases n
  {
    var b := Little(v, n) + rest;
    if n == 0 {
      assert b == rest;
    } else {
      assert b[1..] == Little(v / 0x100, n - 1) + rest;
      ReadsLittle(v / 0x100, n - 1, rest);
    }
  }

  lemma Widths()
    ensures Pow256(1) == 0x100 && Pow256(2) == 0x1_0000 && Pow256(4) == TWO_32
  {
    assert Pow256(1) == 0x100 && Pow256(2) == 0x1_0000 && Pow256(3) == 0x100_0000;
  }

  lemma ReadsByte(v: Ram.u8, rest: Bytes)
    ensures ReadLittle([v] + rest, 1) == Some((v, rest))
  {
    Widths();
    ReadsLittle(v, 1, rest);
    assert Little(v, 1) == [v] + Little(v / 0x100, 0);
  }

  lemma ReadsPlain(b: Bytes, rest: Bytes)
    ensures ReadBytes(b + rest, |b|) == Some((b, rest))
  {
  }

  lemma {:induction false} ReadsLongs(ws: seq<int>, rest: Bytes)
    ensures ReadLongs(Longs(ws) + rest, |ws|) == Some((Wrapped(ws), rest))
    decreases |ws|
  {
    hide ReadLittle, Little, Wrap;
    if ws == [] {
      assert Longs(ws) + rest == rest;
    } else {
      Widths();
      ReadsLittle(Wrap(ws[0]), 4, Longs(ws[1..]) + rest);
      assert Longs(ws) + rest == Little(Wrap(ws[0]), 4) + (Longs(ws[1..]) + rest);
      ReadsLongs(ws[1..], rest);
    }
  }

  lemma {:induction false} ReadsCells(cs: seq<Cell>, rest: Bytes)
    ensures ReadCells(Cells(cs) + rest, |cs|) == Some((Raw(cs), rest))
    decreases |cs|
  {
    hide ReadLittle, Little;
    if cs == [] {
      assert Cells(cs) + rest == rest;
    } else {
      Widths();
      var after: Bytes := Cells(cs[1..]) + rest;
      var value: Ram.u8 := cs[0].value % 0x100;
      ReadsLittle(cs[0].addr, 4, [value] + after);
      ReadsByte(value, after);
      assert Cells(cs) + rest == Little(cs[0].addr, 4) + ([value] + after);
      ReadsCells(cs[1..], rest);
    }
  }

  lemma ReadsRam(name: Bytes, initial: seq<nat>, final_: seq<nat>, a: seq<Cell>, z: seq<Cell>, rest: Bytes)
    requires |a| < 0x1_0000 && |z| < 0x1_0000
    ensures ReadRam(name, initial, final_, Little(|a|, 2) + (Little(|z|, 2) + (Cells(a) + (Cells(z) + rest))))
            == Some((Loaded(name, initial, final_, FirstCells(Raw(a)), FirstCells(Raw(z))), rest))
  {
    hide ReadLittle, Little, Cells, ReadCells, FirstCells, Raw;
    Widths();
    ReadsLittle(|a|, 2, Little(|z|, 2) + (Cells(a) + (Cells(z) + rest)));
    ReadsLittle(|z|, 2, Cells(a) + (Cells(z) + rest));
    ReadsCells(a, Cells(z) + rest);
    ReadsCells(z, rest);
  }

  lemma ReadsVector(v: Vector, rest: Bytes)
    requires WritableVector(v)
    ensures ReadVector(VectorBytes(v) + rest) == Some((ExpectedVector(v), rest))
  {
    hide ReadLittle, Little, Cells, Longs, ReadLongs, FirstCells, Raw, ReadRam, ReadBytes, Wrapped;
    var name := Prefix(v.name, MAX_NAME - 1);
    var ram := Little(|v.initial.ram|, 2)
        + (Little(|v.final_.ram|, 2) + (Cells(v.initial.ram) + (Cells(v.final_.ram) + rest)));
    var regs := Longs(v.initial.regs) + (Longs(v.final_.regs) + ram);
    assert VectorBytes(v) + rest == [|name|] + (name + regs);
    ReadsByte(|name|, name + regs);
    ReadsPlain(name, regs);
    ReadsLongs(v.initial.regs, Longs(v.final_.regs) + ram);
    ReadsLongs(v.final_.regs, ram);
    ReadsRam(name, Wrapped(v.initial.regs), Wrapped(v.final_.regs), v.initial.ram, v.final_.ram, rest);
  }

  lemma {:induction false} ReadsVectors(vs: seq<Vector>, rest: Bytes)
    requires forall v :: v in vs ==> WritableVector(v)
    ensures ReadVectors(VectorsBytes(vs) + rest, |vs|) == Some((ExpectedVectors(vs), rest))
    decreases |vs|
  {
    hide ReadVector, VectorBytes, WritableVector, ExpectedVector;
    if vs == [] {
      assert VectorsBytes(vs) + rest == rest;
    } else {
      ReadsVector(vs[0], VectorsBytes(vs[1..]) + rest);
      assert VectorsBytes(vs) + rest == VectorBytes(vs[0]) + (VectorsBytes(vs[1..]) + rest);
      ReadsVectors(vs[1..], rest);
    }
  }

  /** The loader reads the whole header of a written file exactly when the mnemonic fits its field. */
  lemma HeaderAligned(f: File)
    requires Writable(f)
    ensures var header := ReadHeader(FileBytes(f)[4..]);
            && header.Some? && header.value.0.0 == |f.vectors| && header.value.0.1 == f.source
            && header.value.0.2 == Prefix(f.mnemonic, MAX_MNEMONIC - 1)
            && (header.value.1 == VectorsBytes(f.vectors) <==> |f.mnemonic| < MAX_MNEMONIC)
  {
    hide ReadLittle, Little, VectorsBytes, WritableVector;
    var vectors := VectorsBytes(f.vectors);
    var cut := CutTo(|f.mnemonic|, MAX_MNEMONIC);
    var tail := f.mnemonic + vectors;
    assert FileBytes(f)[4..] == Little(|f.vectors|, 4) + ([f.source] + ([|f.mnemonic|] + tail));
    Widths();
    ReadsLittle(|f.vectors|, 4, [f.source] + ([|f.mnemonic|] + tail));
    ReadsByte(f.source, [|f.mnemonic|] + tail);
    ReadsByte(|f.mnemonic|, tail);
    assert tail[..cut] == Prefix(f.mnemonic, MAX_MNEMONIC - 1);
    if cut == |f.mnemonic| {
      assert tail[cut..] == vectors;
    }
  }

  /** Loading what was written gives the file back: mnemonic, source, names cut to 63 bytes, registers and
      the first 512 RAM entries of each state of every vector, with nothing left unread, exactly when the
      mnemonic fits its field. */
  lemma LoadsWritten(f: File)
    requires Writable(f)
    ensures Load(FileBytes(f)) == File_(Expected(f), []) <==> |f.mnemonic| < MAX_MNEMONIC
  {
    hide ReadHeader, VectorsBytes, ReadVectors, WritableVector, ExpectedVectors, Little;
    HeaderAligned(f);
    assert FileBytes(f)[..4] == MAGIC;
    if |f.mnemonic| < MAX_MNEMONIC {
      ReadsVectors(f.vectors, []);
      assert VectorsBytes(f.vectors) + [] == VectorsBytes(f.vectors);
    }
  }

  // ---- the converter -------------------------------------------------------------------------

  method WriteRegisters(out: Bytes, regs: seq<int>) returns (r: Bytes)
    ensures r == out + Longs(regs)
  {
    hide Little, Wrap;
    r := out;
    for i := 0 to |regs|
      invariant r + Longs(regs[i..]) == out + Longs(regs)
    {
      assert regs[i..][1..] == regs[i + 1..];
      r := r + Little(Wrap(regs[i]), 4);
    }
  }

  method WriteCells(out: Bytes, cs: seq<Cell>) returns (r: Bytes)
    ensures r == out + Cells(cs)
  {
    hide Little;
    r := out;
    for i := 0 to |cs|
      invariant r + Cells(cs[i..]) == out + Cells(cs)
    {
      assert cs[i..][1..] == cs[i + 1..];
      r := r + Little(cs[i].addr, 4) + [cs[i].value % 0x100];
    }
  }

  method WriteVector(out: Bytes, v: Vector) returns (r: Bytes)
    requires WritableVector(v)
    ensures r == out + VectorBytes(v)
  {
    hide Little, Longs, Cells;
    var name := Prefix(v.name, MAX_NAME - 1);
    r := out + [|name|] + name;
    r := WriteRegisters(r, v.initial.regs);
    r := WriteRegisters(r, v.final_.regs);
    r := r + Little(|v.initial.ram|, 2) + Little(|v.final_.ram|, 2);
    r := WriteCells(r, v.initial.ram);
    r := WriteCells(r, v.final_.ram);
  }

  /** The converter's writer. */
  method WriteSst(f: File) returns (out: Bytes)
    requires Writable(f)
    ensures out == FileBytes(f)
  {
    hide Little, VectorBytes, WritableVector;
    out := MAGIC + Little(|f.vectors|, 4) + [f.source, |f.mnemonic|] + f.mnemonic;
    ghost var header := out;
    for i := 0 to |f.vectors|
      invariant out + VectorsBytes(f.vectors[i..]) == header + VectorsBytes(f.vectors)
    {
      assert f.vectors[i..][1..] == f.vectors[i + 1..];
      assert f.vectors[i..][0] == f.vectors[i];
      out := WriteVector(out, f.vectors[i]);
    }
    assert f.vectors[|f.vectors|..] == [];
    assert header + VectorsBytes(f.vectors) == FileBytes(f);
  }

  // ---- the loader ----------------------------------------------------------------------------

  /** What reading `n` more cells makes of the ones read so far. */
  ghost function MoreCells(done: seq<RawCell>, b: Bytes, n: nat): Read<seq<RawCell>> {
    var r := ReadCells(b, n);
    if r.None? then None else Some((done + r.value.0, r.value.1))
  }

  lemma NextCell(done: seq<RawCell>, b: Bytes, n: nat)
    requires n > 0
    ensures var a := ReadLittle(b, 4);
            if a.None? then MoreCells(done, b, n) == None
            else
              var v := ReadLittle(a.value.1, 1);
              if v.None? then MoreCells(done, b, n) == None
              else MoreCells(done, b, n) == MoreCells(done + [RawCell(a.value.0, v.value.0)], v.value.1, n - 1)
  {
    hide ReadLittle;
    var a := ReadLittle(b, 4);
    if a.Some? {
      var v := ReadLittle(a.value.1, 1);
      if v.Some? {
        var rest := ReadCells(v.value.1, n - 1);
        if rest.Some? {
          var cell := RawCell(a.value.0, v.value.0);
          assert done + ([cell] + rest.value.0) == done + [cell] + rest.value.0;
        }
      }
    }
  }

  /** The RAM loop: every entry is read, the first 512 are kept. */
  method LoadRam(b: Bytes, n: nat) returns (r: Read<seq<RawCell>>)
    ensures r == var all := ReadCells(b, n); if all.None? then None else Some((FirstCells(all.value.0), all.value.1))
  {
    hide ReadLittle, ReadCells;
    var kept, rest := [], b;
    ghost var all := [];
    StartCells(b, n);
    for j := 0 to n
      invariant |all| == j && kept == FirstCells(all)
      invariant MoreCells([], b, n) == MoreCells(all, rest, n - j)
    {
      NextCell(all, rest, n - j);
      var addr := ReadLittle(rest, 4);
      if addr.None? {
        return None;
      }
      var val := ReadLittle(addr.value.1, 1);
      if val.None? {
        return None;
      }
      rest := val.value.1;
      all := all + [RawCell(addr.value.0, val.value.0)];
      if j < MAX_RAM {
        kept := kept + [RawCell(addr.value.0, val.value.0)];
      }
    }
    NoMoreCells(all, rest);
    return Some((kept, rest));
  }

  lemma StartCells(b: Bytes, n: nat)
    ensures MoreCells([], b, n) == ReadCells(b, n)
  {
    var r := ReadCells(b, n);
    assert r.Some? ==> [] + r.value.0 == r.value.0;
  }

  lemma NoMoreCells(all: seq<RawCell>, rest: Bytes)
    ensures MoreCells(all, rest, 0) == Some((all, rest))
  {
    assert all + [] == all;
  }

  method LoadVector(b: Bytes) returns (r: Read<Loaded>)
    ensures r == ReadVector(b)
  {
    hide ReadLittle, ReadCells, ReadLongs, FirstCells;
    var length := ReadLittle(b, 1);
    if length.None? {
      return None;
    }
    var vnameLen := length.value.0;
    if vnameLen >= MAX_NAME {
      vnameLen := MAX_NAME - 1;
    }
    var name := ReadBytes(length.value.1, vnameLen);
    if name.None? {
      return None;
    }
    var initial := ReadLongs(name.value.1, NUM_REGS);
    if initial.None? {
      return None;
    }
    var final_ := ReadLongs(initial.value.1, NUM_REGS);
    if final_.None? {
      return None;
    }
    var numInitial := ReadLittle(final_.value.1, 2);
    if numInitial.None? {
      return None;
    }
    var numFinal := ReadLittle(numInitial.value.1, 2);
    if numFinal.None? {
      return None;
    }
    var first := LoadRam(numFinal.value.1, numInitial.value.0);
    if first.None? {
      return None;
    }
    var second := LoadRam(first.value.1, numFinal.value.0);
    if second.None? {
      return None;
    }
    return Some((Loaded(name.value.0, initial.value.0, final_.value.0, first.value.0, second.value.0), second.value.1));
  }

  ghost function MoreVectors(done: seq<Loaded>, b: Bytes, n: nat): Read<seq<Loaded>> {
    var r := ReadVectors(b, n);
    if r.None? then None else Some((done + r.value.0, r.value.1))
  }

  lemma NextVector(done: seq<Loaded>, b: Bytes, n: nat)
    requires n > 0
    ensures var v := ReadVector(b);
            if v.None? then MoreVectors(done, b, n) == None
            else MoreVectors(done, b, n) == MoreVectors(done + [v.value.0], v.value.1, n - 1)
  {
    hide ReadVector;
    var v := ReadVector(b);
    if v.Some? {
      var rest := ReadVectors(v.value.1, n - 1);
      if rest.Some? {
        assert done + ([v.value.0] + rest.value.0) == done + [v.value.0] + rest.value.0;
      }
    }
  }

  lemma StartVectors(b: Bytes, n: nat)
    ensures MoreVectors([], b, n) == ReadVectors(b, n)
  {
    var r := ReadVectors(b, n);
    assert r.Some? ==> [] + r.value.0 == r.value.0;
  }

  lemma NoMoreVectors(all: seq<Loaded>, rest: Bytes)
    ensures MoreVectors(all, rest, 0) == Some((all, rest))
  {
    assert all + [] == all;
  }

  /** The loader. */
  method SstLoad(b: Bytes) returns (r: Outcome)
    ensures r == Load(b)
  {
    hide ReadVector, ReadVectors, ReadHeader;
    if |b| < 4 || b[..4] != MAGIC {
      return Refused;
    }
    var header := LoadHeader(b[4..]);
    if header.None? {
      return Short;
    }
    var (numVectors, sourceId, mnemonic) := header.value.0;
    var start := header.value.1;
    var vectors, rest := [], start;
    StartVectors(start, numVectors);
    for i := 0 to numVectors
      invariant MoreVectors([], start, numVectors) == MoreVectors(vectors, rest, numVectors - i)
    {
      NextVector(vectors, rest, numVectors - i);
      var vec := LoadVector(rest);
      if vec.None? {
        return Short;
      }
      vectors := vectors + [vec.value.0];
      rest := vec.value.1;
    }
    NoMoreVectors(vectors, rest);
    return File_(LoadedFile(sourceId, mnemonic, vectors), rest);
  }

  method LoadHeader(b: Bytes) returns (r: Read<(nat, nat, Bytes)>)
    ensures r == ReadHeader(b)
  {
    hide ReadLittle;
    var n := ReadLittle(b, 4);
    if n.None? {
      return None;
    }
    var source := ReadLittle(n.value.1, 1);
    if source.None? {
      return None;
    }
    var length := ReadLittle(source.value.1, 1);
    if length.None? {
      return None;
    }
    var nameLen := length.value.0;
    if nameLen >= MAX_MNEMONIC {
      nameLen := MAX_MNEMONIC - 1;
    }
    var name := ReadBytes(length.value.1, nameLen);
    if name.None? {
      return None;
    }
    return Some(((n.value.0, source.value.0, name.value.0), name.value.1));
  }
}
