/** The version 2 flash image: a header with one entry a memory area, a checksum, and
    the areas' contents on block boundaries (sw/pulp-runtime/bin/plp_flash_stimuli.py,
    boot/include/hal/rom/rom_v2.h). */
module FlashFormat {
  import opened Words
  import opened Divisibility
  import Crc

  /** A loadable segment of the program. */
  datatype Segment = Segment(base: word, data: seq<byte>)

  /** `flash_v2_mem_area_t`. */
  datatype Area = Area(start: nat, ptr: nat, size: nat, blocks: nat)

  const HEADER_SIZE := 16
  const AREA_SIZE := 16

  /** Header space set aside for each area: four times what an entry takes. */
  const AREA_ROOM := 64
  const BOOTADDR := 0x1C00_0000

  predicate IsBlockSize(bs: nat) {
    bs == 1024 || bs == 4096
  }

  /** The block sizes of the two kinds of flash. */
  type block = bs: nat | bs == 1024 || bs == 4096 witness 1024

  function Blocks(size: nat, bs: block): nat {
    (size + bs - 1) / bs
  }

  /** The flash space taken by size bytes. */
  function Room(size: nat, bs: block): nat {
    Blocks(size, bs) * bs
  }

  /** `(size + 3) & 0xfffffffc`. */
  function RoundUp4(size: nat): nat {
    (size + 3) / 4 * 4
  }

  lemma RoomFacts(size: nat, bs: block)
    ensures size <= RoundUp4(size) <= Room(size, bs) < size + bs
    ensures Room(size, bs) % bs == 0 && Room(size, bs) % 8 == 0
  {
    hide RoundUp4;
    if bs == 1024 {
      RoundUp1024(size);
    } else {
      RoundUp4096(size);
    }
    LeastMultiple(size, Room(size, bs));
  }

  lemma RoundUp1024(size: nat)
    ensures var r := (size + 1023) / 1024 * 1024; size <= r < size + 1024 && r % 1024 == 0 && r % 8 == 0
  {
    Times1024((size + 1023) / 1024);
  }

  lemma RoundUp4096(size: nat)
    ensures var r := (size + 4095) / 4096 * 4096; size <= r < size + 4096 && r % 4096 == 0 && r % 8 == 0
  {
    Times4096((size + 4095) / 4096);
  }

  lemma Times8(q: nat)
    ensures (q * 8) % 8 == 0 && (q * 8) % 4 == 0
  {
    hide *;
    DivModUnique(q * 8, 8, q, 0);
    DivModUnique(q * 8, 4, q * 2, 0);
  }

  lemma Times1024(q: nat)
    ensures (q * 1024) % 1024 == 0 && (q * 1024) % 8 == 0 && (q * 1024) % 4 == 0
  {
    hide *;
    DivModUnique(q * 1024, 1024, q, 0);
    Times8(q * 128);
  }

  lemma Times4096(q: nat)
    ensures (q * 4096) % 4096 == 0 && (q * 4096) % 8 == 0 && (q * 4096) % 4 == 0
  {
    hide *;
    DivModUnique(q * 4096, 4096, q, 0);
    Times8(q * 512);
  }

  lemma EightsAdd(a: nat, b: nat)
    requires a % 8 == 0 && b % 8 == 0
    ensures (a + b) % 8 == 0
  {
    hide *;
    DivMod(a, 8);
    DivMod(b, 8);
    DivModUnique(a + b, 8, a / 8 + b / 8, 0);
  }

  lemma LeastMultiple(size: nat, r: nat)
    requires size <= r && r % 8 == 0
    ensures size <= RoundUp4(size) <= r
  {
    hide *;
    RoundUp4Is(size);
    DivMod(size + 3, 4);
    DivMod(r, 8);
    var q := (size + 3) / 4;
    assert q <= 2 * (r / 8);
  }

  lemma RoundUp4Is(size: nat)
    ensures RoundUp4(size) == (size + 3) / 4 * 4
  {
  }

  lemma BlocksStep(size: nat, bs: block)
    ensures Blocks(size, bs) == 0 <==> size == 0
    ensures 0 < size <= bs ==> Blocks(size, bs) == 1
    ensures size >= bs ==> Blocks(size, bs) == 1 + Blocks(size - bs, bs)
  {
  }

  function HeaderRoom(n: nat): nat {
    HEADER_SIZE + AREA_ROOM * n
  }

  /** Where segment i starts; for i == |segs|, where the last one's blocks end. */
  function StartAt(segs: seq<Segment>, bs: block, i: nat): (r: nat)
    requires i <= |segs|
    ensures r % 8 == 0
    decreases i
  {
    if i == 0 then RoomFacts(HeaderRoom(|segs|) + 4, bs); Room(HeaderRoom(|segs|) + 4, bs)
    else
      var before, room := StartAt(segs, bs, i - 1), Room(|segs[i - 1].data|, bs);
      RoomFacts(|segs[i - 1].data|, bs);
      EightsAdd(before, room);
      before + room
  }

  function AreaOf(segs: seq<Segment>, bs: block, i: nat): Area
    requires i < |segs|
  {
    Area(StartAt(segs, bs, i), segs[i].base, |segs[i].data|, Blocks(|segs[i].data|, bs))
  }

  function Size(segs: seq<Segment>, bs: block): nat {
    StartAt(segs, bs, |segs|)
  }

  function EntryBytes(a: Area): (s: seq<byte>)
    ensures |s| == AREA_SIZE
  {
    Le(a.start, 4) + Le(a.ptr, 4) + Le(a.size, 4) + Le(a.blocks, 4)
  }

  /** The first i entries of the area table. */
  function Table(segs: seq<Segment>, bs: block, i: nat): (s: seq<byte>)
    requires i <= |segs|
    ensures |s| == AREA_SIZE * i
    decreases i
  {
    if i == 0 then [] else Table(segs, bs, i - 1) + EntryBytes(AreaOf(segs, bs, i - 1))
  }

  function HeaderBytes(end: nat, n: nat, entry: nat): (s: seq<byte>)
    ensures |s| == HEADER_SIZE
  {
    Le(end, 4) + Le(n, 4) + Le(entry, 4) + Le(BOOTADDR, 4)
  }

  /** The checksummed part of the header. */
  function Head(segs: seq<Segment>, entry: nat, bs: block): (s: seq<byte>)
    ensures |s| == HeaderRoom(|segs|)
  {
    HeaderBytes(Size(segs, bs), |segs|, entry) + Table(segs, bs, |segs|) + Zeros((AREA_ROOM - AREA_SIZE) * |segs|)
  }

  /** Everything before the first segment. */
  function Front(segs: seq<Segment>, entry: nat, bs: block): (s: seq<byte>)
    ensures |s| == StartAt(segs, bs, 0)
  {
    RoomFacts(HeaderRoom(|segs|) + 4, bs);
    var head := Head(segs, entry, bs);
    head + Crc.Pack(Crc.Crc(head)) + Zeros(StartAt(segs, bs, 0) - HeaderRoom(|segs|) - 4)
  }

  /** The image up to where segment i starts. */
  function ImageTo(segs: seq<Segment>, entry: nat, bs: block, i: nat): (s: seq<byte>)
    requires i <= |segs|
    ensures |s| == StartAt(segs, bs, i)
    decreases i
  {
    if i == 0 then Front(segs, entry, bs)
    else
      var data := segs[i - 1].data;
      RoomFacts(|data|, bs);
      ImageTo(segs, entry, bs, i - 1) + data + Zeros(Room(|data|, bs) - |data|)
  }

  function Image(segs: seq<Segment>, entry: nat, bs: block): (s: seq<byte>)
    ensures |s| == Size(segs, bs)
  {
    ImageTo(segs, entry, bs, |segs|)
  }

  // ------------------------------------------------------------- what the image holds where

  /** s lies in the flash at address a. */
  predicate Holds(flash: seq<byte>, a: nat, s: seq<byte>) {
    a + |s| <= |flash| && flash[a..a + |s|] == s
  }

  lemma HoldsPart(flash: seq<byte>, a: nat, s: seq<byte>, b: nat, t: seq<byte>)
    requires Holds(flash, a, s) && Holds(s, b, t)
    ensures Holds(flash, a + b, t)
  {
    var u := flash[a + b..a + b + |t|];
    forall k | 0 <= k < |t| ensures u[k] == t[k] {
      assert t[k] == s[b..b + |t|][k] == s[b + k] == flash[a..a + |s|][b + k];
    }
    assert u == t;
  }

  lemma HoldsPrefix(flash: seq<byte>, p: seq<byte>, a: nat, s: seq<byte>)
    requires p <= flash && Holds(p, a, s)
    ensures Holds(flash, a, s)
  {
    assert flash[a..a + |s|] == p[a..a + |s|];
  }

  lemma {:induction false} ImageGrows(segs: seq<Segment>, entry: nat, bs: block, i: nat, j: nat)
    requires i <= j <= |segs|
    ensures ImageTo(segs, entry, bs, i) <= ImageTo(segs, entry, bs, j)
    decreases j - i
  {
    hide ImageTo;
    if i < j {
      ImageGrows(segs, entry, bs, i, j - 1);
      ImageNext(segs, entry, bs, j - 1);
    }
  }

  lemma HoldsLast(p: seq<byte>, s: seq<byte>)
    ensures Holds(p + s, |p|, s)
  {
  }

  lemma ImageNext(segs: seq<Segment>, entry: nat, bs: block, i: nat)
    requires i < |segs|
    ensures |segs[i].data| <= Room(|segs[i].data|, bs)
    ensures ImageTo(segs, entry, bs, i + 1)
         == ImageTo(segs, entry, bs, i) + (segs[i].data + Zeros(Room(|segs[i].data|, bs) - |segs[i].data|))
  {
    hide Front, Room, StartAt;
    RoomFacts(|segs[i].data|, bs);
  }

  /** Every segment lies at its recorded start, followed by zeros up to the next block. */
  lemma SegmentPlaced(segs: seq<Segment>, entry: nat, bs: block, i: nat)
    requires i < |segs|
    ensures |segs[i].data| <= Room(|segs[i].data|, bs)
    ensures Holds(Image(segs, entry, bs), StartAt(segs, bs, i),
                  segs[i].data + Zeros(Room(|segs[i].data|, bs) - |segs[i].data|))
  {
    hide Front, Room, StartAt, ImageTo, Holds;
    var data := segs[i].data;
    ImageNext(segs, entry, bs, i);
    var s := data + Zeros(Room(|data|, bs) - |data|);
    HoldsLast(ImageTo(segs, entry, bs, i), s);
    ImageGrows(segs, entry, bs, i + 1, |segs|);
    HoldsPrefix(Image(segs, entry, bs), ImageTo(segs, entry, bs, i + 1), StartAt(segs, bs, i), s);
  }

  lemma {:induction false} TableHolds(segs: seq<Segment>, bs: block, n: nat, i: nat)
    requires i < n <= |segs|
    ensures Holds(Table(segs, bs, n), AREA_SIZE * i, EntryBytes(AreaOf(segs, bs, i)))
    decreases n
  {
    hide EntryBytes, AreaOf;
    if i < n - 1 {
      TableHolds(segs, bs, n - 1, i);
      HoldsPrefix(Table(segs, bs, n), Table(segs, bs, n - 1), AREA_SIZE * i, EntryBytes(AreaOf(segs, bs, i)));
    }
  }

  lemma HoldsMiddle(p: seq<byte>, s: seq<byte>, t: seq<byte>)
    ensures Holds(p + s + t, |p|, s)
  {
  }

  /** The header words and the area entries are where the loader reads them. */
  lemma HeaderPlaced(segs: seq<Segment>, entry: nat, bs: block)
    ensures Holds(Image(segs, entry, bs), 0, HeaderBytes(Size(segs, bs), |segs|, entry))
    ensures Holds(Image(segs, entry, bs), HEADER_SIZE, Table(segs, bs, |segs|))
  {
    hide Room, StartAt, HeaderBytes, Table, Crc.Pack, Crc.Crc, Holds;
    var image, head := Image(segs, entry, bs), Head(segs, entry, bs);
    var first, table := HeaderBytes(Size(segs, bs), |segs|, entry), Table(segs, bs, |segs|);
    assert HEADER_SIZE == |first|;
    HeadGoesFirst(segs, entry, bs);
    HoldsMiddle(first, table, Zeros((AREA_ROOM - AREA_SIZE) * |segs|));
    HoldsMiddle([], first, table + Zeros((AREA_ROOM - AREA_SIZE) * |segs|));
    assert head == [] + first + (table + Zeros((AREA_ROOM - AREA_SIZE) * |segs|));
    HoldsPrefix(image, head, 0, first);
    HoldsPrefix(image, head, HEADER_SIZE, table);
  }

  lemma HeadGoesFirst(segs: seq<Segment>, entry: nat, bs: block)
    ensures Head(segs, entry, bs) <= Image(segs, entry, bs)
  {
    hide Room, Head, Crc.Pack, Crc.Crc;
    ImageGrows(segs, entry, bs, 0, |segs|);
  }

  /** The checksum after the header makes the header check to the standard's residue. */
  lemma HeaderChecks(segs: seq<Segment>, entry: nat, bs: block)
    ensures HeaderRoom(|segs|) + 4 <= |Image(segs, entry, bs)|
    ensures Crc.Crc(Image(segs, entry, bs)[..HeaderRoom(|segs|) + 4]) == Crc.RESIDUE
  {
    hide Room, Table, Crc.Pack, Crc.Crc, Head;
    RoomFacts(HeaderRoom(|segs|) + 4, bs);
    ImageGrows(segs, entry, bs, 0, |segs|);
    var head := Head(segs, entry, bs);
    assert Image(segs, entry, bs)[..HeaderRoom(|segs|) + 4] == head + Crc.Pack(Crc.Crc(head));
    Crc.ResidueIsConstant(head);
  }

  lemma {:induction false} StartsGrow(segs: seq<Segment>, bs: block, i: nat, j: nat)
    requires i <= j <= |segs|
    ensures StartAt(segs, bs, i) <= StartAt(segs, bs, j)
    ensures i < j ==> StartAt(segs, bs, i) + Room(|segs[i].data|, bs) <= StartAt(segs, bs, j)
    decreases j - i
  {
    hide Room;
    if i < j {
      StartsGrow(segs, bs, i, j - 1);
    }
  }

  /** Areas never share a flash block. */
  lemma AreasApart(segs: seq<Segment>, bs: block, i: nat, j: nat)
    requires i < j < |segs|
    ensures AreaOf(segs, bs, i).start + AreaOf(segs, bs, i).blocks * bs <= AreaOf(segs, bs, j).start <= Size(segs, bs)
  {
    hide Blocks;
    StartsGrow(segs, bs, i, j);
    StartsGrow(segs, bs, j, |segs|);
  }
}
