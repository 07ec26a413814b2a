/** The flash boot path as an object over one address space: the loader's own structure
    lies in the memory it loads into (boot/boot_code.c). */
module BootLoader {
  import opened Words
  import opened FlashFormat
  import opened LoaderFit

  /** How much of an area has been moved when rem blocks are left. */
  lemma NextBlock(size: nat, moved: nat, bs: block)
    requires moved < size && moved % 4 == 0
    ensures var left := size - moved;
            bs > left ==> RoundUp4(left) <= bs && moved + RoundUp4(left) == RoundUp4(size) && Blocks(left, bs) == 1
    ensures bs <= size - moved ==>
              (moved + bs) % 4 == 0 && moved + bs <= size &&
              (moved + bs == size ==> RoundUp4(size) == size) &&
              Blocks(size - moved, bs) == 1 + Blocks(size - moved - bs, bs) &&
              (Blocks(size - moved - bs, bs) == 0 <==> size == moved + bs)
  {
    BlocksStep(size - moved, bs);
    if bs <= size - moved {
      BlocksStep(size - moved - bs, bs);
    }
  }

  lemma WordOfSlice(m: seq<byte>, lo: nat, hi: nat, a: nat)
    requires lo <= a && a + 4 <= hi <= |m|
    ensures m[a..a + 4] == m[lo..hi][a - lo..a - lo + 4]
  {
    var s, t := m[a..a + 4], m[lo..hi][a - lo..a - lo + 4];
    forall k | 0 <= k < 4 ensures s[k] == t[k] {
      assert m[lo..hi][a - lo + k] == m[a + k];
    }
    assert s == t;
  }

  /** The part of the structure at `at` that the load must not disturb. */
  ghost function KeptIn(m: seq<byte>, at: nat): (keep: seq<byte>)
    requires at + STRUCT <= |m|
    ensures |keep| == STRUCT - HEADER_AT
  {
    m[at + HEADER_AT..at + STRUCT]
  }

  /** From was to now, n bytes of flash from `from` on have come to lie at lo, and
      nothing else outside the structure has changed. */
  ghost predicate Patched(was: seq<byte>, now: seq<byte>, at: nat, lo: nat, n: nat, flash: seq<byte>, from: nat) {
    |was| == |now| == TWO32 && at + STRUCT <= TWO32 && KeptIn(now, at) == KeptIn(was, at) &&
    forall x :: 0 <= x < TWO32 && !(at <= x < at + STRUCT) ==>
      now[x] == if lo <= x < lo + n then FlashByte(flash, from + (x - lo)) else was[x]
  }

  lemma PatchedNothing(m: seq<byte>, at: nat, lo: nat, flash: seq<byte>, from: nat)
    requires |m| == TWO32 && at + STRUCT <= TWO32
    ensures Patched(m, m, at, lo, 0, flash, from)
  {
  }

  lemma PatchedOn(was: seq<byte>, mid: seq<byte>, now: seq<byte>, at: nat, lo: nat, n: nat, k: nat,
                  flash: seq<byte>, from: nat)
    requires Patched(was, mid, at, lo, n, flash, from) && Patched(mid, now, at, lo + n, k, flash, from + n)
    ensures Patched(was, now, at, lo, n + k, flash, from)
  {
    hide FlashByte;
  }

  lemma PatchedKeeps(was: seq<byte>, now: seq<byte>, at: nat, lo: nat, n: nat, flash: seq<byte>, from: nat)
    requires Patched(was, now, at, lo, n, flash, from)
    ensures |was| == |now| == TWO32 && at + STRUCT <= TWO32 && KeptIn(now, at) == KeptIn(was, at)
  {
  }

  /** Where the table ends, counted from the header. */
  const TABLE_END := AREAS_AT - HEADER_AT + AREA_SIZE * MAX_NB_AREA

  /** The field at offset off of a structure, given its bytes from the header on. */
  function Field(keep: seq<byte>, off: nat): word
    requires |keep| == STRUCT - HEADER_AT && HEADER_AT <= off && off + 4 <= STRUCT
  {
    WordAt(keep[off - HEADER_AT..off - HEADER_AT + 4])
  }

  function TableArea(keep: seq<byte>, i: nat): Area
    requires |keep| == STRUCT - HEADER_AT && i < MAX_NB_AREA
  {
    var p := AREAS_AT + AREA_SIZE * i;
    Area(Field(keep, p), Field(keep, p + 4), Field(keep, p + 8), Field(keep, p + 12))
  }

  function IsHyper(keep: seq<byte>): bool
    requires |keep| == STRUCT - HEADER_AT
  {
    Field(keep, HYPER_AT) != 0
  }

  /** What `flash_load_section` needs of an area: the generator's block count, addresses
      that do not wrap, and room away from the structure. */
  predicate Loadable(a: Area, bs: nat, hyper: bool, at: nat) {
    IsBlockSize(bs) && a.blocks == Blocks(a.size, bs) && a.ptr + RoundUp4(a.size) <= TWO32 && Clear(a, at) &&
    a.start + RoundUp4(a.size) <= Reach(hyper)
  }

  lemma RoundUp4Bounds(size: nat)
    ensures size <= RoundUp4(size) < size + 4 && RoundUp4(size) % 4 == 0
  {
  }

  /** The loop of `flash_load_section` before block n, moved bytes into the area. */
  predicate Progress(a: Area, bs: block, n: nat, moved: nat, areaAddr: word, flashAddr: word, size: word) {
    n <= a.blocks && moved <= RoundUp4(a.size) &&
    (n < a.blocks ==>
       areaAddr == a.ptr + moved && flashAddr == a.start + moved && size == a.size - moved &&
       moved < a.size && moved % 4 == 0 && Blocks(size, bs) == a.blocks - n) &&
    (n == a.blocks ==> moved == RoundUp4(a.size))
  }

  lemma LoadableBlock(a: Area, bs: nat, hyper: bool, at: nat)
    requires Loadable(a, bs, hyper, at)
    ensures bs == 1024 || bs == 4096
  {
  }

  lemma ProgressStarts(a: Area, bs: nat, hyper: bool, at: nat)
    requires Loadable(a, bs, hyper, at) && a.ptr < TWO32 && a.start < TWO32 && a.size < TWO32
    ensures Progress(a, bs, 0, 0, a.ptr, a.start, a.size)
    ensures a.blocks == 0 ==> RoundUp4(a.size) == 0
  {
    BlocksStep(a.size, bs);
  }

  /** n bytes from address lo on miss the structure's fields: they may only reach into the
      buffers at its start. */
  predicate MissesFields(lo: nat, n: nat, at: nat) {
    (lo <= at && lo + n <= at + HEADER_AT) || at + STRUCT <= lo
  }

  /** n bytes of flash have been read to lo. */
  ghost predicate ReadTo(was: seq<byte>, now: seq<byte>, lo: nat, n: nat, flash: seq<byte>, from: nat) {
    |was| == |now| == TWO32 &&
    forall x {:trigger now[x]} :: 0 <= x < TWO32 ==>
      now[x] == if lo <= x < lo + n then FlashByte(flash, from + (x - lo)) else was[x]
  }

  /** From was to now, n bytes from src on have been copied to dest. */
  ghost predicate Copied(was: seq<byte>, now: seq<byte>, dest: nat, src: nat, n: nat) {
    |was| == |now| == TWO32 && src + n <= TWO32 &&
    forall x {:trigger now[x]} :: 0 <= x < TWO32 ==>
      now[x] == if dest <= x < dest + n then was[src + (x - dest)] else was[x]
  }

  lemma KeepsFields(was: seq<byte>, now: seq<byte>, at: nat)
    requires |was| == |now| && at + STRUCT <= |was|
    requires forall x :: at + HEADER_AT <= x < at + STRUCT ==> now[x] == was[x]
    ensures KeptIn(now, at) == KeptIn(was, at)
  {
  }

  /** A read within reach of its command starts where it is told to. */
  lemma ReadFrom(was: seq<byte>, now: seq<byte>, lo: nat, n: nat, flash: seq<byte>, hyper: bool, from: word)
    requires ReadTo(was, now, lo, n, flash, Effective(hyper, from)) && from + n <= Reach(hyper)
    ensures ReadTo(was, now, lo, n, flash, from)
  {
    hide FlashByte;
  }

  lemma MovedDirectly(was: seq<byte>, now: seq<byte>, at: nat, lo: nat, n: nat, flash: seq<byte>, from: nat)
    requires ReadTo(was, now, lo, n, flash, from) && at + STRUCT <= TWO32 && MissesFields(lo, n, at)
    ensures Patched(was, now, at, lo, n, flash, from)
  {
    hide FlashByte, KeptIn;
    KeepsFields(was, now, at);
  }

  /** The same through the buffer at the structure's start. */
  lemma MovedThrough(was: seq<byte>, mid: seq<byte>, now: seq<byte>, at: nat, lo: nat, n: nat,
                     flash: seq<byte>, from: nat)
    requires ReadTo(was, mid, at, n, flash, from) && Copied(mid, now, lo, at, n)
    requires n <= 4096 && at + STRUCT <= TWO32 && MissesFields(lo, n, at)
    ensures Patched(was, now, at, lo, n, flash, from)
  {
    hide FlashByte, KeptIn;
    KeepsFields(was, now, at);
  }

  /** One round moves a block, or what is left rounded up to a word. */
  lemma ProgressGoesOn(a: Area, bs: nat, hyper: bool, at: nat, n: nat, moved: nat,
                       areaAddr: word, flashAddr: word, size: word)
    requires Loadable(a, bs, hyper, at) && Progress(a, bs, n, moved, areaAddr, flashAddr, size) && n < a.blocks
    ensures var iterSize := if bs > size then RoundUp4(size) else bs;
            iterSize <= bs && (n + 1 == a.blocks ==> moved + iterSize == RoundUp4(a.size)) &&
            areaAddr == a.ptr + moved && flashAddr == a.start + moved && flashAddr + iterSize <= Reach(hyper) &&
            areaAddr + iterSize <= TWO32 && MissesFields(areaAddr, iterSize, at) &&
            Progress(a, bs, n + 1, moved + iterSize,
                     ToWord(areaAddr + iterSize), ToWord(flashAddr + iterSize), ToWord(size - iterSize))
  {
    hide Blocks, RoundUp4, Reach;
    NextBlock(a.size, moved, bs);
    RoundUp4Bounds(size);
    RoundUp4Bounds(a.size);
  }

  /** The table as find_data_fit sees it. */
  function TableAreas(keep: seq<byte>): (areas: seq<Area>)
    requires |keep| == STRUCT - HEADER_AT
    ensures |areas| == MAX_NB_AREA
  {
    seq(MAX_NB_AREA, i requires 0 <= i < MAX_NB_AREA => TableArea(keep, i))
  }

  lemma TableEntry(keep: seq<byte>, i: nat)
    requires |keep| == STRUCT - HEADER_AT && i < MAX_NB_AREA
    ensures TableAreas(keep)[i].ptr == Field(keep, AREAS_AT + AREA_SIZE * i + 4)
    ensures TableAreas(keep)[i].size == Field(keep, AREAS_AT + AREA_SIZE * i + 8)
  {
  }

  lemma FitStarts(areas: seq<Area>, bs: block)
    ensures FitAfter(areas, bs, 0) == L2_START
  {
  }

  lemma FieldCopied(keep: seq<byte>, off: nat, flash: seq<byte>)
    requires |keep| == STRUCT - HEADER_AT && HEADER_AT <= off && off + 4 <= STRUCT
    requires forall d :: off - HEADER_AT <= d < off - HEADER_AT + 4 ==> keep[d] == FlashByte(flash, d)
    ensures Field(keep, off) == FlashWord(flash, off - HEADER_AT)
  {
    hide FlashByte, WordAt;
    assert keep[off - HEADER_AT..off - HEADER_AT + 4] == FlashBytes(flash, off - HEADER_AT, 4);
  }

  /** The number of entries fetched. */
  function Fetch(flash: seq<byte>): nat {
    if FlashWord(flash, 4) >= MAX_NB_AREA then MAX_NB_AREA else FlashWord(flash, 4)
  }

  /** From was to now, the structure at `at` has received the header and the table. */
  ghost predicate Fetched(was: seq<byte>, now: seq<byte>, at: nat, flash: seq<byte>) {
    |was| == |now| == TWO32 && at + STRUCT <= TWO32 &&
    (forall x :: 0 <= x < TWO32 && !(at <= x < at + STRUCT) ==> now[x] == was[x]) &&
    (forall d :: 0 <= d < HEADER_SIZE + AREA_SIZE * Fetch(flash) ==> KeptIn(now, at)[d] == FlashByte(flash, d)) &&
    KeptIn(now, at)[TABLE_END..] == KeptIn(was, at)[TABLE_END..]
  }

  lemma HeaderCopied(was: seq<byte>, first: seq<byte>, at: nat, flash: seq<byte>)
    requires ReadTo(was, first, at + HEADER_AT, HEADER_SIZE, flash, 0) && at + STRUCT <= TWO32
    ensures Field(KeptIn(first, at), HEADER_AT + 4) == FlashWord(flash, 4)
    ensures Field(KeptIn(first, at), HYPER_AT) == Field(KeptIn(was, at), HYPER_AT)
  {
    hide FlashByte, WordAt, FlashWord;
    var keep := KeptIn(first, at);
    FieldCopied(keep, HEADER_AT + 4, flash);
    var end := TABLE_END;
    assert keep[end..] == KeptIn(was, at)[end..];
    FieldAfterTable(KeptIn(was, at), keep, HYPER_AT);
  }

  lemma TableCopied(was: seq<byte>, first: seq<byte>, now: seq<byte>, at: nat, flash: seq<byte>, n: nat)
    requires ReadTo(was, first, at + HEADER_AT, HEADER_SIZE, flash, 0)
    requires ReadTo(first, now, at + AREAS_AT, n * AREA_SIZE, flash, HEADER_SIZE)
    requires at + STRUCT <= TWO32 && n == Fetch(flash)
    ensures Fetched(was, now, at, flash)
  {
    hide FlashByte, WordAt, FlashWord;
    var end := TABLE_END;
    assert KeptIn(now, at)[end..] == KeptIn(was, at)[end..];
  }

  lemma FieldAfterTable(was: seq<byte>, now: seq<byte>, off: nat)
    requires |was| == |now| == STRUCT - HEADER_AT
    requires AREAS_AT + AREA_SIZE * MAX_NB_AREA <= off && off + 4 <= STRUCT
    requires now[TABLE_END..] == was[TABLE_END..]
    ensures Field(now, off) == Field(was, off)
  {
    hide WordAt;
    var end := TABLE_END;
    var d := off - HEADER_AT;
    assert now[d..d + 4] == now[end..][d - end..d - end + 4];
    assert was[d..d + 4] == was[end..][d - end..d - end + 4];
  }

  lemma FetchedFields(was: seq<byte>, now: seq<byte>, at: nat, flash: seq<byte>)
    requires Fetched(was, now, at, flash)
    ensures Field(KeptIn(now, at), HEADER_AT + 4) == FlashWord(flash, 4)
    ensures Field(KeptIn(now, at), HEADER_AT + 8) == FlashWord(flash, 8)
    ensures Field(KeptIn(now, at), HEADER_AT + 12) == FlashWord(flash, 12)
    ensures forall i :: 0 <= i < Fetch(flash) ==> TableArea(KeptIn(now, at), i) == FlashArea(flash, i)
    ensures Field(KeptIn(now, at), BLOCK_AT) == Field(KeptIn(was, at), BLOCK_AT)
    ensures IsHyper(KeptIn(now, at)) == IsHyper(KeptIn(was, at))
  {
    hide FlashByte, WordAt, FlashWord, Field, KeptIn;
    var keep := KeptIn(now, at);
    FieldCopied(keep, HEADER_AT + 4, flash);
    FieldCopied(keep, HEADER_AT + 8, flash);
    FieldCopied(keep, HEADER_AT + 12, flash);
    forall i | 0 <= i < Fetch(flash) ensures TableArea(keep, i) == FlashArea(flash, i) {
      var p := AREAS_AT + AREA_SIZE * i;
      FieldCopied(keep, p, flash);
      FieldCopied(keep, p + 4, flash);
      FieldCopied(keep, p + 8, flash);
      FieldCopied(keep, p + 12, flash);
    }
    FieldAfterTable(KeptIn(was, at), keep, BLOCK_AT);
    FieldAfterTable(KeptIn(was, at), keep, HYPER_AT);
  }

  /** From was to now, the first j areas have been loaded. */
  ghost predicate LoadedTo(was: seq<byte>, now: seq<byte>, at: nat, areas: seq<Area>, j: nat, flash: seq<byte>) {
    |was| == |now| == TWO32 && at + STRUCT <= TWO32 && j <= |areas| &&
    forall x :: 0 <= x < TWO32 && !(at <= x < at + STRUCT) ==> now[x] == LoadedByte(areas, flash, j, x, was[x])
  }

  lemma LoadedNothing(was: seq<byte>, now: seq<byte>, at: nat, areas: seq<Area>, flash: seq<byte>)
    requires Fetched(was, now, at, flash)
    ensures LoadedTo(was, now, at, areas, 0, flash)
  {
  }

  lemma LoadedNext(was: seq<byte>, mid: seq<byte>, now: seq<byte>, at: nat, areas: seq<Area>, j: nat, flash: seq<byte>)
    requires j < |areas| && LoadedTo(was, mid, at, areas, j, flash)
    requires Patched(mid, now, at, areas[j].ptr, RoundUp4(areas[j].size), flash, areas[j].start)
    ensures LoadedTo(was, now, at, areas, j + 1, flash)
  {
    hide RoundUp4, FlashByte;
  }

  function FlashBlock(hyper: bool): (bs: nat)
    ensures IsBlockSize(bs)
  {
    if hyper then 1024 else 4096
  }

  /** x is one of the bytes written for some segment. */
  ghost predicate Covered(segs: seq<Segment>, x: int) {
    exists i :: 0 <= i < |segs| && segs[i].base <= x < segs[i].base + RoundUp4(|segs[i].data|)
  }

  /** A program the loader can load: few enough segments, in ascending disjoint order, in
      memory with their round-ups, in an image a read command can reach. */
  ghost predicate Storable(segs: seq<Segment>, hyper: bool) {
    |segs| <= MAX_NB_AREA && Size(segs, FlashBlock(hyper)) < TWO32 && Size(segs, FlashBlock(hyper)) <= Reach(hyper) &&
    (forall i :: 0 <= i < |segs| ==> segs[i].base + RoundUp4(|segs[i].data|) <= TWO32) &&
    (forall i, j :: 0 <= i < j < |segs| ==> segs[i].base + |segs[i].data| <= segs[j].base)
  }

  function AreasOf(segs: seq<Segment>, bs: block): (areas: seq<Area>)
    ensures |areas| == |segs|
  {
    seq(|segs|, i requires 0 <= i < |segs| => AreaOf(segs, bs, i))
  }

  /** And one it can move away from: no segment's end wraps, and above every segment that
      makes it move there is room. */
  ghost predicate Bootable(segs: seq<Segment>, hyper: bool) {
    Storable(segs, hyper) && InMemory(AreasOf(segs, FlashBlock(hyper))) &&
    RoomAbove(AreasOf(segs, FlashBlock(hyper)), FlashBlock(hyper))
  }

  /** The structure at `at` is clear of all segments. */
  ghost predicate ClearOf(segs: seq<Segment>, at: nat) {
    forall i :: 0 <= i < |segs| ==> at + STRUCT <= segs[i].base || segs[i].base + |segs[i].data| <= at
  }

  /** The areas of an image, as the loader reads them. */
  lemma AreasRead(flash: seq<byte>, segs: seq<Segment>, hyper: bool, start: word)
    requires Storable(segs, hyper) && Image(segs, start, FlashBlock(hyper)) <= flash
    ensures FlashWord(flash, 4) == |segs| <= MAX_NB_AREA
    ensures FlashWord(flash, 8) == start && FlashWord(flash, 12) == BOOTADDR
    ensures FlashAreas(flash, |segs|) == AreasOf(segs, FlashBlock(hyper)) && Ascending(AreasOf(segs, FlashBlock(hyper)))
  {
    hide FlashWord, Image, Size, FlashAreas, StartAt, Blocks, RoundUp4, Reach;
    ReadsBack(flash, segs, start, FlashBlock(hyper));
    assert FlashAreas(flash, |segs|) == AreasOf(segs, FlashBlock(hyper));
  }

  /** They can be loaded around any structure that is clear of the segments. */
  lemma AreasLoadable(segs: seq<Segment>, hyper: bool, at: nat)
    requires Storable(segs, hyper) && ClearOf(segs, at)
    ensures forall i :: 0 <= i < |segs| ==> Loadable(AreasOf(segs, FlashBlock(hyper))[i], FlashBlock(hyper), hyper, at)
  {
    hide Size, StartAt, Blocks, RoundUp4;
    var bs := FlashBlock(hyper);
    forall i | 0 <= i < |segs| ensures Loadable(AreasOf(segs, bs)[i], bs, hyper, at) {
      StartsGrow(segs, bs, i, |segs|);
      SizeIsLastStart(segs, bs);
      RoomFacts(|segs[i].data|, bs);
    }
  }

  /** The place the loader moves to is clear of the segments. */
  lemma PlaceClear(segs: seq<Segment>, hyper: bool)
    requires Bootable(segs, hyper)
    ensures var bs := FlashBlock(hyper);
            var at := FitAfter(AreasOf(segs, bs), bs, |segs|);
            at % bs == 0 && at + STRUCT < TWO32 && ClearOf(segs, at)
  {
    hide Size, StartAt, Blocks, RoundUp4, FitAfter, RoomAbove, Reach;
    var bs := FlashBlock(hyper);
    var areas := AreasOf(segs, bs);
    FitClears(areas, bs, |segs|);
    var at := FitAfter(areas, bs, |segs|);
    forall i | 0 <= i < |segs| ensures at + STRUCT <= segs[i].base || segs[i].base + |segs[i].data| <= at {
      assert Clear(areas[i], at);
    }
  }

  lemma SizeIsLastStart(segs: seq<Segment>, bs: block)
    ensures Size(segs, bs) == StartAt(segs, bs, |segs|)
  {
  }

  /** The table in memory leads to the place the table in the flash does. */
  lemma FitOfTable(was: seq<byte>, now: seq<byte>, home: nat, flash: seq<byte>, bs: block)
    requires Fetched(was, now, home, flash) && FlashWord(flash, 4) <= MAX_NB_AREA
    ensures var n := FlashWord(flash, 4);
            Field(KeptIn(now, home), HEADER_AT + 4) == n &&
            FitAfter(TableAreas(KeptIn(now, home)), bs, n) == FitAfter(FlashAreas(flash, n), bs, n)
  {
    hide Field, KeptIn, FitAfter, FlashWord, FlashArea, FlashByte;
    FetchedFields(was, now, home, flash);
    FitOfPrefix(TableAreas(KeptIn(now, home)), FlashAreas(flash, FlashWord(flash, 4)), bs, FlashWord(flash, 4));
  }

  /** From was to now, nothing has changed outside the structures at a and b. */
  ghost predicate Untouched(was: seq<byte>, now: seq<byte>, a: nat, b: nat) {
    |was| == |now| == TWO32 &&
    forall x :: 0 <= x < TWO32 && !(a <= x < a + STRUCT) && !(b <= x < b + STRUCT) ==> now[x] == was[x]
  }

  ghost predicate InSegment(segs: seq<Segment>, x: int) {
    exists i :: 0 <= i < |segs| && segs[i].base <= x < segs[i].base + |segs[i].data|
  }

  /** What loading around a structure leaves in memory: every segment's bytes, zeros for
      the rest of what is written, and outside the structures everything else as it was. */
  ghost predicate Placed(was: seq<byte>, now: seq<byte>, home: nat, at: nat, segs: seq<Segment>) {
    |was| == |now| == TWO32 &&
    (forall i :: 0 <= i < |segs| ==> segs[i].base + |segs[i].data| <= TWO32) &&
    (forall i, k :: 0 <= i < |segs| && 0 <= k < |segs[i].data| ==> now[segs[i].base + k] == segs[i].data[k]) &&
    (forall x :: 0 <= x < TWO32 && !(at <= x < at + STRUCT) && Covered(segs, x) && !InSegment(segs, x) ==>
       now[x] == 0) &&
    (forall x :: 0 <= x < TWO32 && !(home <= x < home + STRUCT) && !(at <= x < at + STRUCT) && !Covered(segs, x) ==>
       now[x] == was[x])
  }

  /** A byte of a segment. */
  lemma SegmentByte(was: seq<byte>, flash: seq<byte>, segs: seq<Segment>, hyper: bool, start: word, i: nat, x: nat)
    requires Storable(segs, hyper) && Image(segs, start, FlashBlock(hyper)) <= flash && x < |was|
    requires i < |segs| && segs[i].base <= x < segs[i].base + |segs[i].data|
    ensures LoadedByte(AreasOf(segs, FlashBlock(hyper)), flash, |segs|, x, was[x]) == segs[i].data[x - segs[i].base]
  {
    hide Image, Size, StartAt, Blocks, RoundUp4, FlashByte, LoadedByte, Reach;
    RoundUp4Bounds(|segs[i].data|);
    LoadedInside(AreasOf(segs, FlashBlock(hyper)), flash, |segs|, i, x, was[x]);
    ContentsBack(flash, segs, start, FlashBlock(hyper), i, x - segs[i].base);
  }

  /** A byte of no segment in the round-up of segment j and of none later. */
  lemma PaddingByte(was: seq<byte>, flash: seq<byte>, segs: seq<Segment>, hyper: bool, start: word, j: nat, x: nat)
    requires Storable(segs, hyper) && Image(segs, start, FlashBlock(hyper)) <= flash && x < |was|
    requires !InSegment(segs, x) && j < |segs| && InSpan(AreasOf(segs, FlashBlock(hyper))[j], x)
    requires forall k :: j < k < |segs| ==> !InSpan(AreasOf(segs, FlashBlock(hyper))[k], x)
    ensures Covered(segs, x)
    ensures LoadedByte(AreasOf(segs, FlashBlock(hyper)), flash, |segs|, x, was[x]) == 0
  {
    hide Image, Size, StartAt, Blocks, RoundUp4, FlashByte, LoadedByte, Reach;
    LoadedInside(AreasOf(segs, FlashBlock(hyper)), flash, |segs|, j, x, was[x]);
    ContentsBack(flash, segs, start, FlashBlock(hyper), j, x - segs[j].base);
  }

  lemma InNoSpan(segs: seq<Segment>, bs: block, x: nat)
    requires forall i :: 0 <= i < |segs| ==> !InSpan(AreasOf(segs, bs)[i], x)
    ensures !Covered(segs, x)
  {
    hide StartAt, Blocks, RoundUp4;
    forall i | 0 <= i < |segs| ensures !(segs[i].base <= x < segs[i].base + RoundUp4(|segs[i].data|)) {
      assert !InSpan(AreasOf(segs, bs)[i], x);
    }
  }

  /** A byte of no segment: zero if it is written at all. */
  lemma OtherByte(was: seq<byte>, flash: seq<byte>, segs: seq<Segment>, hyper: bool, start: word, x: nat)
    requires Storable(segs, hyper) && Image(segs, start, FlashBlock(hyper)) <= flash && x < |was|
    requires !InSegment(segs, x)
    ensures LoadedByte(AreasOf(segs, FlashBlock(hyper)), flash, |segs|, x, was[x]) ==
            if Covered(segs, x) then 0 else was[x]
  {
    hide Image, AreasOf, RoundUp4, LoadedByte, Storable, InSegment;
    var areas, n := AreasOf(segs, FlashBlock(hyper)), |segs|;
    var j := LastSpan(areas, n, x);
    if j >= 0 {
      PaddingByte(was, flash, segs, hyper, start, j, x);
    } else {
      InNoSpan(segs, FlashBlock(hyper), x);
      LoadedOutside(areas, flash, n, x, was[x]);
    }
  }

  /** What has become of a byte outside the structure. */
  lemma ByteLoaded(was: seq<byte>, now: seq<byte>, at: nat, flash: seq<byte>, segs: seq<Segment>, hyper: bool,
                   start: word, x: nat)
    requires Storable(segs, hyper) && Image(segs, start, FlashBlock(hyper)) <= flash
    requires LoadedTo(was, now, at, AreasOf(segs, FlashBlock(hyper)), |segs|, flash)
    requires x < TWO32 && !(at <= x < at + STRUCT)
    ensures forall i :: 0 <= i < |segs| && segs[i].base <= x < segs[i].base + |segs[i].data| ==>
              now[x] == segs[i].data[x - segs[i].base]
    ensures Covered(segs, x) && !InSegment(segs, x) ==> now[x] == 0
    ensures !Covered(segs, x) ==> now[x] == was[x]
  {
    hide Image, AreasOf, LoadedByte, RoundUp4, Storable;
    forall i | 0 <= i < |segs| && segs[i].base <= x < segs[i].base + |segs[i].data|
      ensures now[x] == segs[i].data[x - segs[i].base]
    {
      SegmentByte(was, flash, segs, hyper, start, i, x);
    }
    if !InSegment(segs, x) {
      OtherByte(was, flash, segs, hyper, start, x);
    } else {
      SegmentsCovered(segs, x);
    }
  }

  lemma SegmentsCovered(segs: seq<Segment>, x: nat)
    requires InSegment(segs, x)
    ensures Covered(segs, x)
  {
    hide RoundUp4;
    var i :| 0 <= i < |segs| && segs[i].base <= x < segs[i].base + |segs[i].data|;
    RoundUp4Bounds(|segs[i].data|);
  }

  /** Loading a generated image around any clear structure puts every segment in place,
      aligned or not. */
  lemma ImageLoads(m0: seq<byte>, was: seq<byte>, now: seq<byte>, home: nat, at: nat,
                   flash: seq<byte>, segs: seq<Segment>, hyper: bool, start: word)
    requires Storable(segs, hyper) && Image(segs, start, FlashBlock(hyper)) <= flash && ClearOf(segs, at)
    requires Untouched(m0, was, home, at) && LoadedTo(was, now, at, AreasOf(segs, FlashBlock(hyper)), |segs|, flash)
    ensures Placed(m0, now, home, at, segs)
  {
    hide Image, AreasOf, Covered, InSegment, LoadedByte, RoundUp4, Size, Reach;
    forall i | 0 <= i < |segs| ensures segs[i].base + |segs[i].data| <= TWO32 {
      RoundUp4Bounds(|segs[i].data|);
    }
    forall i, k | 0 <= i < |segs| && 0 <= k < |segs[i].data| ensures now[segs[i].base + k] == segs[i].data[k] {
      ByteLoaded(was, now, at, flash, segs, hyper, start, segs[i].base + k);
    }
    forall x | 0 <= x < TWO32 && !(at <= x < at + STRUCT)
      ensures Covered(segs, x) && !InSegment(segs, x) ==> now[x] == 0
      ensures !Covered(segs, x) ==> now[x] == was[x]
    {
      ByteLoaded(was, now, at, flash, segs, hyper, start, x);
    }
  }

  lemma PlacedAfter(m0: seq<byte>, was: seq<byte>, now: seq<byte>, home: nat, at: nat, segs: seq<Segment>)
    requires Untouched(m0, was, home, at) && Placed(was, now, at, at, segs)
    ensures Placed(m0, now, home, at, segs)
  {
    hide Covered, InSegment;
  }

  lemma FetchedOutside(was: seq<byte>, now: seq<byte>, at: nat, flash: seq<byte>)
    requires Fetched(was, now, at, flash)
    ensures Untouched(was, now, at, at)
  {
  }

  class Loader {
    const mem: array<byte>
    const flash: seq<byte>

    constructor (mem: array<byte>, flash: seq<byte>)
      ensures this.mem == mem && this.flash == flash
    {
      this.mem, this.flash := mem, flash;
    }

    ghost predicate AllMemory() {
      mem.Length == TWO32
    }

    function Load(a: nat): word
      requires a + 4 <= mem.Length
      reads mem
    {
      WordAt(mem[a..a + 4])
    }

    method Store(a: nat, w: word)
      requires a + 4 <= mem.Length
      modifies mem
      ensures Load(a) == w
      ensures forall x :: 0 <= x < mem.Length && !(a <= x < a + 4) ==> mem[x] == old(mem[x])
    {
      var s := Le(w, 4);
      mem[a], mem[a + 1], mem[a + 2], mem[a + 3] := s[0], s[1], s[2], s[3];
      assert mem[a..a + 4] == s;
      WordRoundTrip(w);
    }

    ghost function Kept(at: nat): (keep: seq<byte>)
      requires at + STRUCT <= mem.Length
      reads mem
      ensures |keep| == STRUCT - HEADER_AT
    {
      KeptIn(mem[..], at)
    }

    lemma LoadKept(at: nat, off: nat)
      requires at + STRUCT <= mem.Length && HEADER_AT <= off && off + 4 <= STRUCT
      ensures Load(at + off) == Field(Kept(at), off)
    {
      WordOfSlice(mem[..], at + HEADER_AT, at + STRUCT, at + off);
      assert mem[..][at + off..at + off + 4] == mem[at + off..at + off + 4];
    }

    /** A transfer from the flash, as a copy. */
    method FlashRead(at: nat, flashAddr: word, dst: nat, size: nat)
      requires AllMemory() && at + STRUCT <= TWO32 && dst + size <= TWO32
      modifies mem
      ensures ReadTo(old(mem[..]), mem[..], dst, size, flash, Effective(IsHyper(old(Kept(at))), flashAddr))
    {
      LoadKept(at, HYPER_AT);
      var from := Effective(Load(at + HYPER_AT) != 0, flashAddr);
      forall x | dst <= x < dst + size {
        mem[x] := FlashByte(flash, from + (x - dst));
      }
    }

    /** `memcpy`, which copies upwards: the source may overlap the destination from above. */
    method Memcpy(dest: nat, src: nat, n0: nat)
      requires AllMemory() && dest + n0 <= TWO32 && src + n0 <= TWO32
      requires dest <= src || src + n0 <= dest
      modifies mem
      ensures Copied(old(mem[..]), mem[..], dest, src, n0)
    {
      var destc, srcc, n := dest, src, n0;
      while n > 0
        invariant 0 <= n <= n0 && destc == dest + (n0 - n) && srcc == src + (n0 - n)
        invariant forall x :: 0 <= x < TWO32 ==>
                    mem[x] == if dest <= x < destc then old(mem[src + (x - dest)]) else old(mem[x])
      {
        mem[destc] := mem[srcc];
        destc, srcc, n := destc + 1, srcc + 1, n - 1;
      }
    }

    /** One block, straight into the L2 or through the structure's buffer. */
    method MoveBlock(at: nat, flashAddr: word, areaAddr: nat, iterSize: nat, isL2: bool)
      requires AllMemory() && at + STRUCT <= TWO32 && iterSize <= 4096
      requires areaAddr + iterSize <= TWO32 && MissesFields(areaAddr, iterSize, at)
      requires flashAddr + iterSize <= Reach(IsHyper(Kept(at)))
      modifies mem
      ensures Patched(old(mem[..]), mem[..], at, areaAddr, iterSize, flash, flashAddr)
    {
      hide IsHyper, FlashByte, Patched, KeptIn, ReadTo, Copied, Effective, Reach;
      ghost var was := mem[..];
      ghost var hyper := IsHyper(Kept(at));
      if isL2 {
        FlashRead(at, flashAddr, areaAddr, iterSize);
        ReadFrom(was, mem[..], areaAddr, iterSize, flash, hyper, flashAddr);
        MovedDirectly(was, mem[..], at, areaAddr, iterSize, flash, flashAddr);
      } else {
        FlashRead(at, flashAddr, at, iterSize);
        ghost var mid := mem[..];
        ReadFrom(was, mid, at, iterSize, flash, hyper, flashAddr);
        Memcpy(areaAddr, at, iterSize);
        MovedThrough(was, mid, mem[..], at, areaAddr, iterSize, flash, flashAddr);
      }
    }

    /** One area, block by block; what lies outside the L2 goes through the structure's
        buffer. */
    method FlashLoadSection(at: nat, i: nat)
      requires AllMemory() && at + STRUCT <= TWO32 && i < MAX_NB_AREA
      requires Loadable(TableArea(Kept(at), i), Field(Kept(at), BLOCK_AT), IsHyper(Kept(at)), at)
      modifies mem
      ensures var a := TableArea(old(Kept(at)), i);
              Patched(old(mem[..]), mem[..], at, a.ptr, RoundUp4(a.size), flash, a.start)
    {
      hide Blocks, RoundUp4, WordAt, Field, FlashByte, IsHyper, Reach, Progress, Clear, Loadable, Patched, KeptIn,
        MissesFields, Load, ToWord;
      ghost var keep := Kept(at);
      ghost var a := TableArea(keep, i);
      ghost var off := AREAS_AT + AREA_SIZE * i;
      LoadKept(at, off);
      LoadKept(at, off + 4);
      LoadKept(at, off + 8);
      LoadKept(at, off + 12);
      LoadKept(at, BLOCK_AT);
      LoadableBlock(a, Field(keep, BLOCK_AT), IsHyper(keep), at);
      var area := at + AREAS_AT + AREA_SIZE * i;
      var flashAddr: word := Load(area);
      var areaAddr: word := Load(area + 4);
      var size: word := Load(area + 8);
      var isL2 := areaAddr >= L2_START && areaAddr < L2_END;
      ghost var bs: nat := Field(keep, BLOCK_AT);
      ghost var was := mem[..];
      ghost var moved: nat := 0;
      PatchedNothing(was, at, a.ptr, flash, a.start);
      var n := 0;
      ProgressStarts(a, bs, IsHyper(keep), at);
      while n < Load(area + 12)
        invariant a.blocks == Load(area + 12) && Load(at + BLOCK_AT) == bs && Kept(at) == keep
        invariant Patched(was, mem[..], at, a.ptr, moved, flash, a.start)
        invariant n <= a.blocks && Progress(a, bs, n, moved, areaAddr, flashAddr, size)
        invariant n == a.blocks ==> moved == RoundUp4(a.size)
        decreases a.blocks - n
      {
        var iterSize := Load(at + BLOCK_AT);
        ProgressGoesOn(a, bs, IsHyper(keep), at, n, moved, areaAddr, flashAddr, size);
        if iterSize > size {
          iterSize := RoundUp4(size);
        }
        ghost var mid := mem[..];
        MoveBlock(at, flashAddr, areaAddr, iterSize, isL2);
        PatchedKeeps(mid, mem[..], at, areaAddr, iterSize, flash, flashAddr);
        PatchedOn(was, mid, mem[..], at, a.ptr, moved, iterSize, flash, a.start);
        LoadKept(at, off + 12);
        LoadKept(at, BLOCK_AT);
        moved := moved + iterSize;
        areaAddr := ToWord(areaAddr + iterSize);
        flashAddr := ToWord(flashAddr + iterSize);
        size := ToWord(size - iterSize);
        n := n + 1;
      }
    }

    /** The header, and as many table entries as the structure has room for. */
    method FlashGetMemSections(at: nat)
      requires AllMemory() && at + STRUCT <= TWO32 && FlashWord(flash, 4) < TWO31
      modifies mem
      ensures Fetched(old(mem[..]), mem[..], at, flash)
    {
      hide FlashByte, WordAt, KeptIn;
      ghost var was := mem[..];
      LoadKept(at, HYPER_AT);
      FlashRead(at, 0, at + HEADER_AT, HEADER_SIZE);
      ghost var first := mem[..];
      HeaderCopied(was, first, at, flash);
      LoadKept(at, HEADER_AT + 4);
      var nbArea := Load(at + HEADER_AT + 4);
      if nbArea >= MAX_NB_AREA {
        nbArea := MAX_NB_AREA;
      }
      if nbArea != 0 {
        FlashRead(at, HEADER_SIZE, at + AREAS_AT, nbArea * AREA_SIZE);
      }
      TableCopied(was, first, mem[..], at, flash, nbArea);
    }

    /** The place the loader moves to. */
    method FindDataFit(at: nat) returns (addr: word)
      requires AllMemory() && at + STRUCT <= TWO32
      requires IsBlockSize(Field(Kept(at), BLOCK_AT)) && Field(Kept(at), HEADER_AT + 4) <= MAX_NB_AREA
      ensures addr == FitAfter(TableAreas(Kept(at)), Field(Kept(at), BLOCK_AT), Field(Kept(at), HEADER_AT + 4))
    {
      hide Field, WordAt, KeptIn, ToWord, MaskDown, TableAreas, FitAfter;
      FitStarts(TableAreas(Kept(at)), Field(Kept(at), BLOCK_AT));
      ghost var areas := TableAreas(Kept(at));
      LoadKept(at, HEADER_AT + 4);
      LoadKept(at, BLOCK_AT);
      var bs: int := Load(at + BLOCK_AT);
      addr := 0x1c00_0000;
      var i := 0;
      while i < Load(at + HEADER_AT + 4)
        invariant 0 <= i <= Load(at + HEADER_AT + 4) && addr == FitAfter(areas, bs, i)
      {
        var area := at + AREAS_AT + AREA_SIZE * i;
        LoadKept(at, AREAS_AT + AREA_SIZE * i + 4);
        LoadKept(at, AREAS_AT + AREA_SIZE * i + 8);
        TableEntry(Kept(at), i);
        FitStep(areas, bs, i);
        var ptr: int, size: int := Load(area + 4), Load(area + 8);
        if (addr >= ptr && addr < ToWord(ptr + size)) || (addr < ptr && ToWord(addr + STRUCT) > ptr) {
          addr := MaskDown(ToWord(ptr + size + bs - 1), bs);
        }
        i := i + 1;
      }
    }

    /** Loads every area, whatever their order, and hands over the entry point. */
    method FlashLoadAndStart(at: nat) returns (entry: word, bootaddr: word)
      requires AllMemory() && at + STRUCT <= TWO32 && FlashWord(flash, 4) <= MAX_NB_AREA
      requires forall i :: 0 <= i < FlashWord(flash, 4) ==>
                 Loadable(FlashAreas(flash, FlashWord(flash, 4))[i], Field(Kept(at), BLOCK_AT), IsHyper(Kept(at)), at)
      modifies mem
      ensures entry == FlashWord(flash, 8) && bootaddr == FlashWord(flash, 12)
      ensures LoadedTo(old(mem[..]), mem[..], at, FlashAreas(flash, FlashWord(flash, 4)), FlashWord(flash, 4), flash)
    {
      hide Field, WordAt, KeptIn, FlashWord, Loadable, Patched, LoadedTo, FlashArea, Fetched;
      ghost var was := mem[..];
      ghost var n := FlashWord(flash, 4);
      ghost var areas := FlashAreas(flash, n);
      FlashGetMemSections(at);
      ghost var keep := Kept(at);
      FetchedFields(was, mem[..], at, flash);
      LoadedNothing(was, mem[..], at, areas, flash);
      LoadKept(at, HEADER_AT + 4);
      LoadKept(at, HEADER_AT + 8);
      LoadKept(at, HEADER_AT + 12);
      var i := 0;
      while i < Load(at + HEADER_AT + 4)
        invariant 0 <= i <= n == Load(at + HEADER_AT + 4) && Kept(at) == keep
        invariant LoadedTo(was, mem[..], at, areas, i, flash)
        decreases n - i
      {
        ghost var mid := mem[..];
        assert TableArea(keep, i) == areas[i];
        FlashLoadSection(at, i);
        PatchedKeeps(mid, mem[..], at, areas[i].ptr, RoundUp4(areas[i].size), flash, areas[i].start);
        LoadedNext(was, mid, mem[..], at, areas, i, flash);
        LoadKept(at, HEADER_AT + 4);
        i := i + 1;
      }
      LoadKept(at, HEADER_AT + 8);
      LoadKept(at, HEADER_AT + 12);
      entry := Load(at + HEADER_AT + 8);
      bootaddr := Load(at + HEADER_AT + 12);
    }

    /** The scalar fields, as both `boot_qspi` and `flash_init` set them. */
    method Configure(at: nat, hyperflash: bool, qpi: bool)
      requires AllMemory() && at + STRUCT <= TWO32
      modifies mem
      ensures IsHyper(Kept(at)) == hyperflash && Field(Kept(at), BLOCK_AT) == FlashBlock(hyperflash)
      ensures forall x :: 0 <= x < TWO32 && !(at <= x < at + STRUCT) ==> mem[x] == old(mem[x])
    {
      hide WordAt;
      Store(at + QPI_AT, if qpi then 1 else 0);
      Store(at + HYPER_AT, if hyperflash then 1 else 0);
      ghost var mid := mem[..];
      Store(at + BLOCK_AT, FlashBlock(hyperflash));
      LoadKept(at, BLOCK_AT);
      LoadKept(at, HYPER_AT);
      assert mem[at + HYPER_AT..at + HYPER_AT + 4] == mid[at + HYPER_AT..at + HYPER_AT + 4];
    }

    /** `flash_load_and_start` on a generated image, with the structure anywhere clear of
        the segments. */
    method LoadImage(at: nat, ghost hyper: bool, ghost segs: seq<Segment>, ghost start: word)
      returns (entry: word, bootaddr: word)
      requires AllMemory() && at + STRUCT <= TWO32
      requires Field(Kept(at), BLOCK_AT) == FlashBlock(hyper) && IsHyper(Kept(at)) == hyper
      requires Storable(segs, hyper) && Image(segs, start, FlashBlock(hyper)) <= flash && ClearOf(segs, at)
      modifies mem
      ensures entry == start && bootaddr == BOOTADDR
      ensures Placed(old(mem[..]), mem[..], at, at, segs)
    {
      hide Image, FlashAreas, RoundUp4, LoadedTo, FlashWord, KeptIn, WordAt, Field, Loadable, Placed, Storable,
        ClearOf, AreasOf;
      ghost var was := mem[..];
      AreasRead(flash, segs, hyper, start);
      AreasLoadable(segs, hyper, at);
      entry, bootaddr := FlashLoadAndStart(at);
      ImageLoads(was, was, mem[..], at, at, flash, segs, hyper, start);
    }

    /** Fetches the table, moves out of the way of what it is about to load, and loads:
        every segment is in place, and outside what is written and the two places of the
        loader's structure nothing has changed. */
    method BootQspi(home: nat, hyperflash: bool, qpi: bool, ghost segs: seq<Segment>, ghost start: word)
      returns (entry: word, bootaddr: word, at: nat)
      requires AllMemory() && home + STRUCT <= TWO32
      requires Bootable(segs, hyperflash) && Image(segs, start, FlashBlock(hyperflash)) <= flash
      modifies mem
      ensures entry == start && bootaddr == BOOTADDR
      ensures at % FlashBlock(hyperflash) == 0 && at + STRUCT <= TWO32 && ClearOf(segs, at)
      ensures Placed(old(mem[..]), mem[..], home, at, segs)
    {
      hide Image, FitAfter, FlashAreas, RoundUp4, Fetched, FlashWord, KeptIn, WordAt, Field, Placed, Storable, ClearOf,
        AreasOf, InMemory, RoomAbove;
      ghost var m0 := mem[..];
      AreasRead(flash, segs, hyperflash, start);
      PlaceClear(segs, hyperflash);
      Configure(home, hyperflash, qpi);
      ghost var m1 := mem[..];
      FlashGetMemSections(home);
      ghost var m2 := mem[..];
      FetchedFields(m1, m2, home, flash);
      FitOfTable(m1, m2, home, flash, FlashBlock(hyperflash));
      FetchedOutside(m1, m2, home, flash);
      at := FindDataFit(home);
      Configure(at, hyperflash, qpi);
      ghost var m3 := mem[..];
      entry, bootaddr := LoadImage(at, hyperflash, segs, start);
      PlacedAfter(m0, m3, mem[..], home, at, segs);
    }
  }
}
