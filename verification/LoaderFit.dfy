/** Where the loader moves itself before it loads (boot/boot_code.c). */
module LoaderFit {
  import opened Words
  import opened Divisibility
  import opened FlashFormat

  /** `sizeof(boot_code_t)` and the offsets of the fields the loader uses. */
  const HEADER_AT := 5128
  const AREAS_AT := 5144
  const HYPER_AT := 6428
  const BLOCK_AT := 6432
  const QPI_AT := 6436
  const STRUCT := 6440

  const MAX_NB_AREA := 16
  const L2_START := 0x1C00_0000
  const L2_END := 0x1D00_0000

  /** The bytes `flash_load_section` writes for an area. */
  predicate InSpan(a: Area, x: int) {
    a.ptr <= x < a.ptr + RoundUp4(a.size)
  }

  predicate InArea(a: Area, x: int) {
    a.ptr <= x < a.ptr + a.size
  }

  /** No area's end wraps around the address space. */
  ghost predicate InMemory(areas: seq<Area>) {
    forall i :: 0 <= i < |areas| ==> areas[i].ptr + areas[i].size < TWO32
  }

  ghost predicate Ascending(areas: seq<Area>) {
    forall i, j :: 0 <= i < j < |areas| ==> areas[i].ptr + areas[i].size <= areas[j].ptr
  }

  ghost predicate WordAligned(areas: seq<Area>) {
    forall i :: 0 <= i < |areas| ==> areas[i].ptr % 4 == 0
  }

  /** The loader's structure at address at keeps clear of an area. */
  predicate Clear(a: Area, at: nat) {
    at + STRUCT <= a.ptr || a.ptr + a.size <= at
  }

  /** And of everything `flash_load_section` writes for it, which can be up to three bytes
      more. */
  predicate SpanClear(a: Area, at: nat) {
    at + STRUCT <= a.ptr || a.ptr + RoundUp4(a.size) <= at
  }

  /** The test of `find_data_fit`, in 32-bit arithmetic. */
  predicate Meets(a: Area, addr: word) {
    (addr >= a.ptr && addr < ToWord(a.ptr + a.size)) || (addr < a.ptr && ToWord(addr + STRUCT) > a.ptr)
  }

  /** An area's end, rounded up to a block. */
  function RoundedEnd(a: Area, bs: block): word {
    MaskDown(ToWord(a.ptr + a.size + bs - 1), bs)
  }

  /** One round of `find_data_fit`. */
  function Bump(a: Area, bs: block, addr: word): word {
    if Meets(a, addr) then RoundedEnd(a, bs) else addr
  }

  /** `x & ~(bs - 1)`. */
  function MaskDown(x: word, bs: block): (r: word)
    ensures x - bs < r <= x && r % bs == 0 && r % 4 == 0
  {
    Times1024(x / 1024);
    Times4096(x / 4096);
    if bs == 1024 then x / 1024 * 1024 else x / 4096 * 4096
  }

  /** The address after the first i areas. */
  function FitAfter(areas: seq<Area>, bs: block, i: nat): word
    requires i <= |areas|
    decreases i
  {
    if i == 0 then L2_START else Bump(areas[i - 1], bs, FitAfter(areas, bs, i - 1))
  }

  lemma FitStep(areas: seq<Area>, bs: block, i: nat)
    requires i < |areas|
    ensures FitAfter(areas, bs, i + 1) == Bump(areas[i], bs, FitAfter(areas, bs, i))
  {
  }

  lemma {:induction false} FitOfPrefix(areas: seq<Area>, longer: seq<Area>, bs: block, n: nat)
    requires n <= |areas| && n <= |longer|
    requires forall i :: 0 <= i < n ==> areas[i] == longer[i]
    ensures FitAfter(areas, bs, n) == FitAfter(longer, bs, n)
    decreases n
  {
    hide Bump;
    if n > 0 {
      FitOfPrefix(areas, longer, bs, n - 1);
    }
  }

  /** The highest block-aligned address with room for the structure above it. */
  function LoadLimit(bs: block): nat {
    if bs == 1024 then TWO32 - 7 * 1024 else TWO32 - 2 * 4096
  }

  /** Area i makes the address move. */
  predicate Moves(areas: seq<Area>, bs: block, i: nat)
    requires i < |areas|
  {
    Meets(areas[i], FitAfter(areas, bs, i))
  }

  /** Above every area that makes the address move there is room for the structure. */
  ghost predicate RoomAbove(areas: seq<Area>, bs: block) {
    forall i :: 0 <= i < |areas| && Moves(areas, bs, i) ==> areas[i].ptr + areas[i].size <= LoadLimit(bs)
  }

  /** The last of the first n areas that makes the address move, or -1. */
  function LastMover(areas: seq<Area>, bs: block, n: nat): (m: int)
    requires n <= |areas|
    ensures -1 <= m < n
    decreases n
  {
    if n == 0 then -1 else if Moves(areas, bs, n - 1) then n - 1 else LastMover(areas, bs, n - 1)
  }

  lemma AlignedEnd(ptr: nat, size: nat, r: nat)
    requires ptr % 4 == 0 && r % 4 == 0 && ptr + size <= r
    ensures ptr + RoundUp4(size) <= r
  {
    hide *;
    RoundUp4Is(size);
    DivMod(ptr, 4);
    DivMod(r, 4);
    DivMod(size + 3, 4);
    var q := (size + 3) / 4;
    assert q <= r / 4 - ptr / 4;
  }

  lemma BumpClears(a: Area, bs: block, addr: word)
    requires addr % bs == 0 && addr % 4 == 0 && addr + STRUCT < TWO32
    requires a.ptr + a.size < TWO32 && (Meets(a, addr) ==> a.ptr + a.size <= LoadLimit(bs))
    ensures var r := Bump(a, bs, addr);
            r >= addr && r % bs == 0 && r % 4 == 0 && r + STRUCT < TWO32 && Clear(a, r) &&
            (Meets(a, addr) ==> a.ptr + a.size <= r)
  {
    hide MaskDown, RoundedEnd, ToWord;
    EndRoomy(a, bs);
    NoWrapping(a, addr);
  }

  lemma NoWrapping(a: Area, addr: word)
    requires a.ptr + a.size < TWO32 && addr + STRUCT < TWO32
    ensures ToWord(a.ptr + a.size) == a.ptr + a.size && ToWord(addr + STRUCT) == addr + STRUCT
  {
  }

  lemma EndRoomy(a: Area, bs: block)
    ensures RoundedEnd(a, bs) % bs == 0 && RoundedEnd(a, bs) % 4 == 0
    ensures a.ptr + a.size <= LoadLimit(bs) ==>
              a.ptr + a.size <= RoundedEnd(a, bs) <= LoadLimit(bs) && RoundedEnd(a, bs) + STRUCT < TWO32
  {
    hide MaskDown;
    if a.ptr + a.size <= LoadLimit(bs) {
      BelowLimit(RoundedEnd(a, bs), bs, a.ptr + a.size);
    }
  }

  /** A multiple of the block size less than a block above the limit is not above it. */
  lemma BelowLimit(r: nat, bs: block, end: nat)
    requires r % bs == 0 && r < end + bs && end <= LoadLimit(bs)
    ensures r <= LoadLimit(bs)
  {
  }

  /** The result is where the last mover put it, and clear of every area from there on,
      whatever their order. */
  lemma {:induction false} FitFromLastMover(areas: seq<Area>, bs: block, n: nat)
    requires InMemory(areas) && RoomAbove(areas, bs) && n <= |areas|
    ensures var r, m := FitAfter(areas, bs, n), LastMover(areas, bs, n);
            r >= L2_START && r % bs == 0 && r % 4 == 0 && r + STRUCT < TWO32 &&
            r == (if m == -1 then L2_START else RoundedEnd(areas[m], bs)) &&
            (m >= 0 ==> areas[m].ptr + areas[m].size <= r) &&
            forall i :: 0 <= i < n && m <= i ==> Clear(areas[i], r)
    decreases n
  {
    hide RoundedEnd, Meets, Clear;
    if n > 0 {
      FitFromLastMover(areas, bs, n - 1);
      BumpClears(areas[n - 1], bs, FitAfter(areas, bs, n - 1));
    }
  }

  /** The structure stays at 0x1C000000 when none of its 6440 bytes there is in an area. */
  lemma {:induction false} FitUnmoved(areas: seq<Area>, bs: block, n: nat)
    requires n <= |areas| && InMemory(areas)
    requires forall i :: 0 <= i < n ==>
               areas[i].ptr + areas[i].size <= 0x1C000000 || 0x1C000000 + 6440 <= areas[i].ptr
    ensures FitAfter(areas, bs, n) == 0x1C000000
    decreases n
  {
    hide RoundedEnd;
    if n > 0 {
      FitUnmoved(areas, bs, n - 1);
      FitStep(areas, bs, n - 1);
    }
  }

  /** An area that moves it moves it to the first block boundary at or behind its end. */
  lemma FitMoved(areas: seq<Area>, bs: block, n: nat)
    requires n < |areas| && InMemory(areas) && areas[n].ptr + areas[n].size + bs <= 0x100000000
    requires FitAfter(areas, bs, n) + 6440 < 0x100000000
    requires areas[n].size > 0 && !(areas[n].ptr + areas[n].size <= FitAfter(areas, bs, n) ||
                                    FitAfter(areas, bs, n) + 6440 <= areas[n].ptr)
    ensures var r, end := FitAfter(areas, bs, n + 1), areas[n].ptr + areas[n].size;
            r % bs == 0 && end <= r < end + bs
  {
    hide MaskDown, ToWord, FitAfter;
    var a, addr := areas[n], FitAfter(areas, bs, n);
    NoWrapping(a, addr);
    EndIs(a, bs);
    FitStep(areas, bs, n);
  }

  lemma EndIs(a: Area, bs: block)
    requires a.ptr + a.size + bs <= TWO32
    ensures var r, end := RoundedEnd(a, bs), a.ptr + a.size; r % bs == 0 && end <= r < end + bs
  {
    hide MaskDown;
  }

  /** The single pass keeps the structure clear of all areas if and only if no area before
      the last mover lies where that mover's rounded-up end puts the structure. */
  lemma FitClearsIff(areas: seq<Area>, bs: block, n: nat)
    requires InMemory(areas) && RoomAbove(areas, bs) && n <= |areas|
    ensures (forall i :: 0 <= i < n ==> Clear(areas[i], FitAfter(areas, bs, n)))
       <==> (forall i :: 0 <= i < LastMover(areas, bs, n) ==>
               Clear(areas[i], RoundedEnd(areas[LastMover(areas, bs, n)], bs)))
  {
    hide RoundedEnd, Clear, FitAfter, LastMover;
    FitFromLastMover(areas, bs, n);
  }

  /** Areas in ascending order need only one pass: a later move never undoes an earlier
      one. On word boundaries the structure is clear of the round-ups as well. */
  lemma FitClears(areas: seq<Area>, bs: block, n: nat)
    requires InMemory(areas) && RoomAbove(areas, bs) && Ascending(areas) && n <= |areas|
    ensures var r := FitAfter(areas, bs, n);
            r >= L2_START && r % bs == 0 && r + STRUCT < TWO32 &&
            (forall i :: 0 <= i < n ==> Clear(areas[i], r)) &&
            (WordAligned(areas) ==> forall i :: 0 <= i < n ==> SpanClear(areas[i], r))
  {
    hide RoundedEnd, FitAfter, LastMover, RoundUp4;
    FitFromLastMover(areas, bs, n);
    var r, m := FitAfter(areas, bs, n), LastMover(areas, bs, n);
    forall i | 0 <= i < n ensures Clear(areas[i], r) {
      if i < m {
        assert areas[i].ptr + areas[i].size <= areas[m].ptr;
      }
    }
    if WordAligned(areas) {
      forall i | 0 <= i < n ensures SpanClear(areas[i], r) {
        if areas[i].ptr + areas[i].size <= r {
          AlignedEnd(areas[i].ptr, areas[i].size, r);
        }
      }
    }
  }

  /** Out of order, the single pass can land on an area it has already passed. */
  lemma UnorderedFitOverlaps()
    ensures var areas := [Area(0, L2_START + 0x2000, 0x1000, 1), Area(0, L2_START, 0x1000, 1)];
            InMemory(areas) && RoomAbove(areas, 4096) && WordAligned(areas) && !Ascending(areas) &&
            LastMover(areas, 4096, 2) == 1 && !Clear(areas[0], FitAfter(areas, 4096, 2))
  {
    var areas := [Area(0, L2_START + 0x2000, 0x1000, 1), Area(0, L2_START, 0x1000, 1)];
    assert FitAfter(areas, 4096, 1) == L2_START;
    assert FitAfter(areas, 4096, 2) == L2_START + 0x1000;
    assert areas[0].ptr + areas[0].size > areas[1].ptr;
  }

  // ------------------------------------------------------------- flash contents

  /** Past the programmed part the flash is erased. */
  function FlashByte(flash: seq<byte>, a: int): byte {
    if 0 <= a < |flash| then flash[a] else 0xFF
  }

  function FlashBytes(flash: seq<byte>, a: nat, n: nat): (s: seq<byte>)
    ensures |s| == n
  {
    seq<byte>(n, k requires 0 <= k => FlashByte(flash, a + k))
  }

  function FlashWord(flash: seq<byte>, a: nat): word {
    WordAt(FlashBytes(flash, a, 4))
  }

  function FlashArea(flash: seq<byte>, i: nat): Area {
    var p := HEADER_SIZE + AREA_SIZE * i;
    Area(FlashWord(flash, p), FlashWord(flash, p + 4), FlashWord(flash, p + 8), FlashWord(flash, p + 12))
  }

  function FlashAreas(flash: seq<byte>, n: nat): (areas: seq<Area>)
    ensures |areas| == n
  {
    seq(n, i requires 0 <= i => FlashArea(flash, i))
  }

  /** A read command carries 24 address bits, the hyperbus 32. */
  function Reach(hyper: bool): (r: nat)
    ensures r <= TWO32
  {
    if hyper then TWO32 else 0x100_0000
  }

  function Effective(hyper: bool, a: word): word {
    a % Reach(hyper)
  }

  lemma HeldBytes(flash: seq<byte>, a: nat, s: seq<byte>)
    requires Holds(flash, a, s)
    ensures FlashBytes(flash, a, |s|) == s
  {
    forall k | 0 <= k < |s| ensures FlashByte(flash, a + k) == s[k] {
      assert flash[a..a + |s|][k] == s[k];
    }
  }

  lemma HeldWord(flash: seq<byte>, a: nat, w: word)
    requires Holds(flash, a, Le(w, 4))
    ensures FlashWord(flash, a) == w
  {
    HeldBytes(flash, a, Le(w, 4));
    WordRoundTrip(w);
  }

  lemma FourParts(p: seq<byte>, q: seq<byte>, r: seq<byte>, t: seq<byte>)
    requires |p| == |q| == |r| == |t| == 4
    ensures var s := p + q + r + t; Holds(s, 0, p) && Holds(s, 4, q) && Holds(s, 8, r) && Holds(s, 12, t)
  {
    var s := p + q + r + t;
    assert s[0..4] == p && s[4..8] == q && s[8..12] == r && s[12..16] == t;
  }

  lemma FourWords(flash: seq<byte>, a: nat, w0: word, w1: word, w2: word, w3: word)
    requires Holds(flash, a, Le(w0, 4) + Le(w1, 4) + Le(w2, 4) + Le(w3, 4))
    ensures FlashWord(flash, a) == w0 && FlashWord(flash, a + 4) == w1
    ensures FlashWord(flash, a + 8) == w2 && FlashWord(flash, a + 12) == w3
  {
    hide FlashWord, Le, Holds;
    var s := Le(w0, 4) + Le(w1, 4) + Le(w2, 4) + Le(w3, 4);
    FourParts(Le(w0, 4), Le(w1, 4), Le(w2, 4), Le(w3, 4));
    HoldsPart(flash, a, s, 0, Le(w0, 4));
    HoldsPart(flash, a, s, 4, Le(w1, 4));
    HoldsPart(flash, a, s, 8, Le(w2, 4));
    HoldsPart(flash, a, s, 12, Le(w3, 4));
    HeldWord(flash, a, w0);
    HeldWord(flash, a + 4, w1);
    HeldWord(flash, a + 8, w2);
    HeldWord(flash, a + 12, w3);
  }

  lemma LayoutFits(segs: seq<Segment>, bs: block, i: nat)
    requires i < |segs| && Size(segs, bs) < TWO32
    ensures var a := AreaOf(segs, bs, i); a.start < TWO32 && a.size < TWO32 && a.blocks < TWO32
  {
    hide StartAt;
    StartsGrow(segs, bs, i, |segs|);
    RoomFacts(|segs[i].data|, bs);
  }

  /** The loader reads back the header and the table that the generator wrote. */
  lemma ReadsBack(flash: seq<byte>, segs: seq<Segment>, entry: word, bs: block)
    requires Size(segs, bs) < TWO32 && |segs| <= MAX_NB_AREA && Image(segs, entry, bs) <= flash
    ensures FlashWord(flash, 4) == |segs| && FlashWord(flash, 8) == entry && FlashWord(flash, 12) == BOOTADDR
    ensures forall i :: 0 <= i < |segs| ==> FlashAreas(flash, |segs|)[i] == AreaOf(segs, bs, i)
  {
    hide FlashWord, Image, Le, Table, StartAt;
    HeaderPlaced(segs, entry, bs);
    var image := Image(segs, entry, bs);
    HoldsPrefix(flash, image, 0, HeaderBytes(Size(segs, bs), |segs|, entry));
    FourWords(flash, 0, Size(segs, bs), |segs|, entry, BOOTADDR);
    forall i | 0 <= i < |segs| ensures FlashArea(flash, i) == AreaOf(segs, bs, i) {
      var a := AreaOf(segs, bs, i);
      TableHolds(segs, bs, |segs|, i);
      HoldsPart(image, HEADER_SIZE, Table(segs, bs, |segs|), AREA_SIZE * i, EntryBytes(a));
      HoldsPrefix(flash, image, HEADER_SIZE + AREA_SIZE * i, EntryBytes(a));
      LayoutFits(segs, bs, i);
      FourWords(flash, HEADER_SIZE + AREA_SIZE * i, a.start, a.ptr, a.size, a.blocks);
    }
  }

  /** What the flash holds for segment i: its bytes, then zeros to the block's end. */
  lemma ContentsBack(flash: seq<byte>, segs: seq<Segment>, entry: word, bs: block, i: nat, k: nat)
    requires i < |segs| && k < RoundUp4(|segs[i].data|) && Image(segs, entry, bs) <= flash
    ensures FlashByte(flash, StartAt(segs, bs, i) + k) == if k < |segs[i].data| then segs[i].data[k] else 0
  {
    hide Image, StartAt, RoundUp4;
    var data := segs[i].data;
    RoomFacts(|data|, bs);
    SegmentPlaced(segs, entry, bs, i);
    var s := data + Zeros(Room(|data|, bs) - |data|);
    HoldsPrefix(flash, Image(segs, entry, bs), StartAt(segs, bs, i), s);
    assert flash[StartAt(segs, bs, i)..StartAt(segs, bs, i) + |s|][k] == s[k];
  }

  // ------------------------------------------------------------- memory after loading

  /** The byte at x after the first j areas are loaded over memory that held was. */
  function LoadedByte(areas: seq<Area>, flash: seq<byte>, j: nat, x: int, was: byte): byte
    requires j <= |areas|
    decreases j
  {
    if j == 0 then was
    else if InSpan(areas[j - 1], x) then FlashByte(flash, areas[j - 1].start + (x - areas[j - 1].ptr))
    else LoadedByte(areas, flash, j - 1, x, was)
  }

  /** In ascending order no later area's round-up touches an earlier area's bytes. */
  lemma {:induction false} LoadedInside(areas: seq<Area>, flash: seq<byte>, n: nat, j: nat, x: int, was: byte)
    requires Ascending(areas) && j < n <= |areas| && InSpan(areas[j], x)
    requires InArea(areas[j], x) || forall k :: j < k < n ==> !InSpan(areas[k], x)
    ensures LoadedByte(areas, flash, n, x, was) == FlashByte(flash, areas[j].start + (x - areas[j].ptr))
    decreases n
  {
    hide RoundUp4;
    if j < n - 1 {
      assert !InSpan(areas[n - 1], x);
      LoadedInside(areas, flash, n - 1, j, x, was);
    }
  }

  /** The last of the first n areas whose span holds x, or -1. */
  function LastSpan(areas: seq<Area>, n: nat, x: int): (j: int)
    requires n <= |areas|
    ensures -1 <= j < n
    ensures j >= 0 ==> InSpan(areas[j], x)
    ensures forall k :: j < k < n ==> !InSpan(areas[k], x)
    decreases n
  {
    if n == 0 then -1 else if InSpan(areas[n - 1], x) then n - 1 else LastSpan(areas, n - 1, x)
  }

  lemma {:induction false} LoadedOutside(areas: seq<Area>, flash: seq<byte>, n: nat, x: int, was: byte)
    requires n <= |areas| && forall j :: 0 <= j < n ==> !InSpan(areas[j], x)
    ensures LoadedByte(areas, flash, n, x, was) == was
    decreases n
  {
    hide InSpan;
    if n > 0 {
      LoadedOutside(areas, flash, n - 1, x, was);
    }
  }
}
