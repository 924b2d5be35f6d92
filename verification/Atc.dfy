/** The 22-entry address translation cache shared by the 68030 and 68040 paths, as a value:
    tags, data words and the pseudo-LRU history.  The history word is the set of its one bits. */
module Atc {
  import opened Words

  const ENTRIES: nat := 22

  // weights of the tag and data bits
  const VALID: int := 0x0800_0000
  const BUSERROR: int := 0x0800_0000
  const WRITE_PR: int := 0x0200_0000
  const MODIFIED: int := 0x0100_0000
  const GLOBAL: int := 0x0080_0000
  const U0: int := 0x0040_0000
  const U1: int := 0x0020_0000

  datatype Cache = Cache(tag: seq<u32>, data: seq<u32>, history: set<nat>)

  function Zeros(n: nat): (s: seq<u32>)
    ensures |s| == n && forall i :: 0 <= i < n ==> s[i] == 0
  {
    if n == 0 then [] else Zeros(n - 1) + [0]
  }

  const EMPTY: Cache := Cache(Zeros(ENTRIES), Zeros(ENTRIES), {})

  /** All bits of the history word are set. */
  predicate Full(history: set<nat>) {
    forall i: nat | i < ENTRIES :: i in history
  }

  predicate IsValid(tag: u32) {
    Flag(tag, VALID)
  }

  /** The bit of weight `unit` is set. */
  predicate Flag(w: u32, unit: int)
    requires unit > 0
  {
    w / unit % 2 == 1
  }

  /** `w | unit`. */
  function SetFlag(w: int, unit: int): int
    requires unit > 0
  {
    if w / unit % 2 == 1 then w else w + unit
  }

  /** The physical address a hit forms: the low 24 data bits and the offset in the page. */
  function HitAddress(data: u32, offset: int): u32
    requires 0 <= offset < 0x8000
  {
    Wrap(data % 0x100_0000 * 256 + offset)
  }

  /** The fault decision on a hit. */
  predicate HitFault(data: u32, write: bool) {
    Flag(data, BUSERROR) || (write && Flag(data, WRITE_PR))
  }

  predicate Shaped(c: Cache) {
    |c.tag| == |c.data| == ENTRIES
  }

  /** What every sequence of operations keeps: valid tags are pairwise distinct, and the history
      never has all its bits set. */
  ghost predicate Inv(c: Cache) {
    && Shaped(c)
    && (forall i, j :: 0 <= i < j < ENTRIES && IsValid(c.tag[i]) ==> c.tag[i] != c.tag[j])
    && !Full(c.history)
  }

  lemma InvShaped(c: Cache)
    requires Inv(c)
    ensures Shaped(c)
  {
  }

  // ---- history and victim --------------------------------------------------------------------

  function Touch(history: set<nat>, entry: nat): set<nat> {
    if Full(history + {entry}) then {entry} else history + {entry}
  }

  /** First entry from `i` whose history bit is clear; 0 when all are set. */
  function Victim(history: set<nat>, i: nat): (k: nat)
    ensures k < ENTRIES
    decreases ENTRIES - i
  {
    if i >= ENTRIES then 0 else if i !in history then i else Victim(history, i + 1)
  }

  lemma VictimIsClear(history: set<nat>, i: nat)
    requires exists k: nat :: i <= k < ENTRIES && k !in history
    ensures i <= Victim(history, i) < ENTRIES && Victim(history, i) !in history
    ensures forall k: nat :: i <= k < Victim(history, i) ==> k in history
    decreases ENTRIES - i
  {
  }

  /** Touching an entry keeps a clear bit in the history, so the next victim exists and is not the
      entry just touched. */
  lemma {:induction false} TouchedIsNotVictim(history: set<nat>, entry: nat)
    requires entry < ENTRIES
    ensures !Full(Touch(history, entry))
    ensures entry in Touch(history, entry)
    ensures Victim(Touch(history, entry), 0) < ENTRIES
    ensures Victim(Touch(history, entry), 0) !in Touch(history, entry)
  {
    var h := Touch(history, entry);
    var other: nat := if entry == 0 then 1 else 0;
    assert other !in {entry} && (h == {entry} ==> other !in h);
    VictimIsClear(h, 0);
  }

  // ---- operations ----------------------------------------------------------------------------

  /** First index of `t` in `tags` from `i`, or the length. */
  function IndexOf(tags: seq<u32>, t: u32, i: nat): (k: nat)
    requires i <= |tags|
    ensures i <= k <= |tags|
    ensures k < |tags| ==> tags[k] == t
    ensures forall j :: i <= j < k ==> tags[j] != t
    decreases |tags| - i
  {
    if i == |tags| || tags[i] == t then i else IndexOf(tags, t, i + 1)
  }

  /** First empty entry from `i`, or the length. */
  function FreeSlot(tags: seq<u32>, i: nat): (k: nat)
    requires i <= |tags|
    ensures i <= k <= |tags|
    ensures k < |tags| ==> !IsValid(tags[k])
    ensures forall j :: i <= j < k ==> IsValid(tags[j])
    decreases |tags| - i
  {
    if i == |tags| || !IsValid(tags[i]) then i else FreeSlot(tags, i + 1)
  }

  /** The entry a new tag goes to when it is not cached yet. */
  function Slot(c: Cache): (k: nat)
    requires Shaped(c)
    ensures k < ENTRIES
  {
    if FreeSlot(c.tag, 0) < ENTRIES then FreeSlot(c.tag, 0) else Victim(c.history, 0)
  }

  /** Replace the entry for `tag` or fill a new one.  Only the 68030 path touches the history when
      it replaces (`touchReplaced`). */
  function Add(c: Cache, tag: u32, data: u32, touchReplaced: bool): (r: Cache)
    requires Shaped(c)
    ensures Shaped(r)
  {
    var k := IndexOf(c.tag, tag, 0);
    if k < ENTRIES then
      Cache(c.tag, c.data[k := data], if touchReplaced then Touch(c.history, k) else c.history)
    else
      var s := Slot(c);
      Cache(c.tag[s := tag], c.data[s := data], Touch(c.history, s))
  }

  datatype LookupResult = Miss(cache: Cache) | Hit(cache: Cache, data: u32)

  /** Search for `tag`.  A write that meets an entry without M empties it and misses. */
  function Lookup(c: Cache, tag: u32, write: bool, touchHit: bool): (r: LookupResult)
    requires Shaped(c)
    ensures Shaped(r.cache)
  {
    var k := IndexOf(c.tag, tag, 0);
    if k == ENTRIES then Miss(c)
    else if write && !Flag(c.data[k], MODIFIED) then Miss(c.(tag := c.tag[k := 0]))
    else Hit(if touchHit then c.(history := Touch(c.history, k)) else c, c.data[k])
  }

  /** Empty every entry whose (tag, data) satisfies `drop`. */
  function Flush(c: Cache, drop: (int, int) -> bool): Cache
    requires |c.tag| == |c.data|
  {
    Cache(Dropped(c.tag, c.data, drop), c.data, c.history)
  }

  function Dropped(tags: seq<u32>, data: seq<u32>, drop: (int, int) -> bool): (r: seq<u32>)
    requires |tags| == |data|
    ensures |r| == |tags|
    ensures forall i :: 0 <= i < |r| ==> r[i] == if drop(tags[i], data[i]) then 0 else tags[i]
  {
    if tags == [] then []
    else [if drop(tags[0], data[0]) then 0 else tags[0]] + Dropped(tags[1..], data[1..], drop)
  }

  /** Empty every entry and the history; the data words stay. */
  function FlushAll(c: Cache): Cache {
    Cache(Zeros(|c.tag|), c.data, {})
  }

  lemma ZeroIsEmpty()
    ensures !IsValid(0)
  {
  }

  lemma EmptyKeepsInv()
    ensures Inv(EMPTY)
  {
    ZeroIsEmpty();
    assert 0 !in EMPTY.history;
  }

  lemma AddKeepsInv(c: Cache, tag: u32, data: u32, touchReplaced: bool)
    requires Inv(c) && IsValid(tag)
    ensures Inv(Add(c, tag, data, touchReplaced))
  {
    hide IsValid;
    var k := IndexOf(c.tag, tag, 0);
    TouchedIsNotVictim(c.history, if k < ENTRIES then k else Slot(c));
  }

  lemma LookupKeepsInv(c: Cache, tag: u32, write: bool, touchHit: bool)
    requires Inv(c) && IsValid(tag)
    ensures Inv(Lookup(c, tag, write, touchHit).cache)
  {
    ZeroIsEmpty();
    hide IsValid;
    var k := IndexOf(c.tag, tag, 0);
    if k < ENTRIES {
      TouchedIsNotVictim(c.history, k);
    }
  }

  lemma FlushKeepsInv(c: Cache, drop: (int, int) -> bool)
    requires Inv(c)
    ensures Inv(Flush(c, drop))
  {
    ZeroIsEmpty();
    hide IsValid;
  }

  lemma FlushAllKeepsInv(c: Cache)
    requires Inv(c)
    ensures Inv(FlushAll(c))
    ensures forall t: u32, d: u32 :: IsValid(t) ==> !Holds(FlushAll(c), t, d)
  {
    ZeroIsEmpty();
    hide IsValid;
    assert 0 !in FlushAll(c).history;
  }

  // ---- what the cache holds ------------------------------------------------------------------

  /** Some entry maps `tag` to `data`. */
  ghost predicate Holds(c: Cache, tag: u32, data: u32) {
    exists i :: 0 <= i < |c.tag| && i < |c.data| && c.tag[i] == tag && c.data[i] == data
  }

  /** After an add, what is cached is the new mapping or was cached before under another tag. */
  lemma AddHolds(c: Cache, tag: u32, data: u32, touchReplaced: bool, t: u32, d: u32)
    requires Inv(c) && IsValid(tag) && IsValid(t)
    requires Holds(Add(c, tag, data, touchReplaced), t, d)
    ensures if t == tag then d == data else Holds(c, t, d)
  {
    hide IsValid;
  }

  /** An add forgets no other mapping while an entry is empty, and else just that of the first entry whose history
      bit is clear. */
  lemma AddForgets(c: Cache, tag: u32, data: u32, touchReplaced: bool, t: u32, d: u32)
    requires Inv(c) && IsValid(tag) && IsValid(t) && t != tag && Holds(c, t, d)
    ensures Holds(Add(c, tag, data, touchReplaced), t, d)
       <==> || tag in c.tag || (exists i :: 0 <= i < ENTRIES && !IsValid(c.tag[i]))
            || exists i :: 0 <= i < ENTRIES && i !in c.history && (forall j: nat :: j < i ==> j in c.history)
                 && c.tag[i] != t
  {
    hide IsValid;
    var c', v := Add(c, tag, data, touchReplaced), Victim(c.history, 0);
    var k :| 0 <= k < ENTRIES && c.tag[k] == t && c.data[k] == d;
    VictimIsClear(c.history, 0);
    var s := if tag in c.tag then IndexOf(c.tag, tag, 0) else Slot(c);
    if s != k {
      assert c'.tag[k] == t && c'.data[k] == d;
    }
  }

  lemma LookupHolds(c: Cache, tag: u32, write: bool, touchHit: bool, t: u32, d: u32)
    requires Inv(c) && IsValid(tag) && IsValid(t)
    requires Holds(Lookup(c, tag, write, touchHit).cache, t, d)
    ensures Holds(c, t, d)
    ensures Lookup(c, tag, write, touchHit).Miss? ==> t != tag
  {
    ZeroIsEmpty();
    hide IsValid;
  }

  /** What a hit returns is what the cache holds; a write only hits an entry marked modified. */
  lemma HitHolds(c: Cache, tag: u32, write: bool, touchHit: bool)
    requires Inv(c) && Lookup(c, tag, write, touchHit).Hit?
    ensures Holds(c, tag, Lookup(c, tag, write, touchHit).data)
    ensures write ==> Flag(Lookup(c, tag, write, touchHit).data, MODIFIED)
  {
  }

  /** A read of a tag just added hits on its data. */
  lemma AddThenLookup(c: Cache, tag: u32, data: u32, touch: bool)
    requires Inv(c) && IsValid(tag)
    ensures Lookup(Add(c, tag, data, touch), tag, false, touch).Hit?
    ensures Lookup(Add(c, tag, data, touch), tag, false, touch).data == data
  {
    hide IsValid;
    var c' := Add(c, tag, data, touch);
    var k := IndexOf(c'.tag, tag, 0);
    assert Holds(c', tag, data) by {
      var j := IndexOf(c.tag, tag, 0);
      var i := if j < ENTRIES then j else Slot(c);
      assert c'.tag[i] == tag && c'.data[i] == data;
    }
  }

  lemma FlushHolds(c: Cache, drop: (int, int) -> bool, t: u32, d: u32)
    requires Inv(c) && IsValid(t)
    ensures Holds(Flush(c, drop), t, d) <==> Holds(c, t, d) && !drop(t, d)
  {
    ZeroIsEmpty();
    hide IsValid;
    var f := Flush(c, drop);
    if Holds(c, t, d) && !drop(t, d) {
      var i :| 0 <= i < |c.tag| && c.tag[i] == t && c.data[i] == d;
      assert f.tag[i] == t && f.data[i] == d;
    }
  }

  // ---- runs of cache operations --------------------------------------------------------------

  /** The four ways the emulator changes the ATC; the flags tell the 68030 path, which touches the history
      on replacements and hits, from the 68040 path. */
  datatype Use = AddUse(tag: u32, data: u32, touch: bool) | LookupUse(sought: u32, write: bool, touchHit: bool)
               | FlushUse(drop: (int, int) -> bool) | FlushAllUse

  predicate ProperUse(u: Use) {
    (u.AddUse? ==> IsValid(u.tag)) && (u.LookupUse? ==> IsValid(u.sought))
  }

  function After(c: Cache, u: Use): (r: Cache)
    requires Shaped(c)
    ensures Shaped(r)
  {
    match u
    case AddUse(tag, data, touch) => Add(c, tag, data, touch)
    case LookupUse(tag, write, touch) => Lookup(c, tag, write, touch).cache
    case FlushUse(drop) => Flush(c, drop)
    case FlushAllUse => FlushAll(c)
  }

  /** The entry an operation touches in the history, if any. */
  function Touches(c: Cache, u: Use): Option<nat>
    requires Shaped(c)
  {
    match u
    case AddUse(tag, _, touch) =>
      var k := IndexOf(c.tag, tag, 0);
      if k == ENTRIES then Some(Slot(c)) else if touch then Some(k) else None
    case LookupUse(tag, write, touch) =>
      if touch && Lookup(c, tag, write, touch).Hit? then Some(IndexOf(c.tag, tag, 0)) else None
    case _ => None
  }

  function AfterAll(c: Cache, us: seq<Use>): (r: Cache)
    requires Shaped(c)
    ensures Shaped(r)
    decreases |us|
  {
    if us == [] then c else AfterAll(After(c, us[0]), us[1..])
  }

  /** The entry touched last since the cache was last flushed whole, starting from `last`. */
  function LastTouched(c: Cache, last: Option<nat>, us: seq<Use>): Option<nat>
    requires Shaped(c)
    decreases |us|
  {
    if us == [] then last
    else
      var now := if us[0].FlushAllUse? then None else if Touches(c, us[0]).Some? then Touches(c, us[0]) else last;
      LastTouched(After(c, us[0]), now, us[1..])
  }

  /** An entry the history protects. */
  predicate Protects(c: Cache, last: Option<nat>) {
    last.Some? ==> last.value < ENTRIES && last.value in c.history
  }

  lemma StepKeepsInv(c: Cache, last: Option<nat>, u: Use)
    requires Inv(c) && ProperUse(u) && Protects(c, last)
    ensures Inv(After(c, u))
    ensures Protects(After(c, u), if u.FlushAllUse? then None else if Touches(c, u).Some? then Touches(c, u) else last)
  {
    hide Inv, IsValid, Flush, FlushAll, Full;
    InvShaped(c);
    match u
    case AddUse(tag, data, touch) =>
      AddKeepsInv(c, tag, data, touch);
      var k := IndexOf(c.tag, tag, 0);
      HistoryOpen(c);
      TouchedIsNotVictim(c.history, if k < ENTRIES then k else Slot(c));
    case LookupUse(tag, write, touch) =>
      LookupKeepsInv(c, tag, write, touch);
      var k := IndexOf(c.tag, tag, 0);
      HistoryOpen(c);
      if k < ENTRIES {
        TouchedIsNotVictim(c.history, k);
      }
    case FlushUse(drop) =>
      FlushKeepsInv(c, drop);
      assert Flush(c, drop).history == c.history by { FlushHistory(c, drop); }
    case FlushAllUse => FlushAllKeepsInv(c);
  }

  lemma HistoryOpen(c: Cache)
    requires Inv(c)
    ensures !Full(c.history)
  {
  }

  lemma FlushHistory(c: Cache, drop: (int, int) -> bool)
    requires |c.tag| == |c.data|
    ensures Flush(c, drop).history == c.history
  {
  }

  /** Over every run of adds, lookups and flushes: valid tags stay pairwise distinct, the history keeps a
      clear bit, so a victim exists, and the entry touched last is not it. */
  lemma {:induction false} RunKeepsInv(c: Cache, last: Option<nat>, us: seq<Use>)
    requires Inv(c) && Protects(c, last) && forall u :: u in us ==> ProperUse(u)
    ensures Inv(AfterAll(c, us))
    ensures var h := AfterAll(c, us).history;
            Victim(h, 0) !in h && LastTouched(c, last, us) != Some(Victim(h, 0))
    decreases |us|
  {
    hide Inv, IsValid, After, Touches, ProperUse, Full;
    InvShaped(c);
    if us == [] {
      HistoryOpen(c);
      OpenVictim(c.history);
    } else {
      StepKeepsInv(c, last, us[0]);
      var now := if us[0].FlushAllUse? then None else if Touches(c, us[0]).Some? then Touches(c, us[0]) else last;
      RunKeepsInv(After(c, us[0]), now, us[1..]);
    }
  }

  lemma OpenVictim(history: set<nat>)
    requires !Full(history)
    ensures Victim(history, 0) !in history
  {
    VictimIsClear(history, 0);
  }
}
