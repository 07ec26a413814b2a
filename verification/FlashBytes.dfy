/** Where everything lies in a flash image, in bytes and numbers
    (sw/pulp-runtime/bin/plp_flash_stimuli.py, boot/include/hal/rom/rom_v2.h). */
module FlashBytes {
  import opened Words
  import opened Divisibility
  import opened FlashFormat
  import Crc

  /** The little-endian number at a. */
  predicate NumberAt(f: seq<byte>, a: nat, x: nat) {
    a + 4 <= |f| && Number(f[a..a + 4]) == x
  }

  lemma HeldNumber(f: seq<byte>, a: nat, x: word)
    requires Holds(f, a, Le(x, 4))
    ensures NumberAt(f, a, x)
  {
    hide Number, Le;
    NumberRoundTrip(x);
  }

  lemma FourNumbers(f: seq<byte>, a: nat, w: word, x: word, y: word, z: word)
    requires Holds(f, a, Le(w, 4) + Le(x, 4) + Le(y, 4) + Le(z, 4))
    ensures NumberAt(f, a, w) && NumberAt(f, a + 4, x) && NumberAt(f, a + 8, y) && NumberAt(f, a + 12, z)
  {
    hide Number, Le, Holds, NumberAt;
    FourParts(Le(w, 4), Le(x, 4), Le(y, 4), Le(z, 4));
    var s := Le(w, 4) + Le(x, 4) + Le(y, 4) + Le(z, 4);
    HoldsPart(f, a, s, 0, Le(w, 4));
    HoldsPart(f, a, s, 4, Le(x, 4));
    HoldsPart(f, a, s, 8, Le(y, 4));
    HoldsPart(f, a, s, 12, Le(z, 4));
    HeldNumber(f, a, w);
    HeldNumber(f, a + 4, x);
    HeldNumber(f, a + 8, y);
    HeldNumber(f, a + 12, z);
  }

  lemma FourParts(p: seq<byte>, q: seq<byte>, r: seq<byte>, t: seq<byte>)
    requires |p| == 4 && |q| == 4 && |r| == 4 && |t| == 4
    ensures var s := p + q + r + t; Holds(s, 0, p) && Holds(s, 4, q) && Holds(s, 8, r) && Holds(s, 12, t)
  {
  }

  /** The header: the image's end, the number of areas, the entry, the boot address; one
      16-byte entry an area from byte 16 on. */
  lemma HeaderNumbers(segs: seq<Segment>, entry: word, bs: block)
    requires |Image(segs, entry, bs)| < 4294967296 && |segs| < 4294967296
    ensures var f := Image(segs, entry, bs);
            |f| == StartAt(segs, bs, |segs|) && NumberAt(f, 0, |f|) && NumberAt(f, 4, |segs|) &&
            NumberAt(f, 8, entry) && NumberAt(f, 12, 0x1C000000)
  {
    hide Le, NumberAt, Holds, Image, StartAt, Table;
    HeaderPlaced(segs, entry, bs);
    FourNumbers(Image(segs, entry, bs), 0, Size(segs, bs), |segs|, entry, 0x1C000000);
  }

  /** An area's entry: where it starts in the flash, where it goes, its bytes, its blocks. */
  lemma EntryNumbers(segs: seq<Segment>, entry: word, bs: block, i: nat)
    requires |Image(segs, entry, bs)| < 4294967296 && i < |segs|
    ensures var f, a, s := Image(segs, entry, bs), 16 + 16 * i, segs[i];
            NumberAt(f, a, StartAt(segs, bs, i)) && NumberAt(f, a + 4, s.base) && NumberAt(f, a + 8, |s.data|) &&
            NumberAt(f, a + 12, Blocks(|s.data|, bs))
  {
    hide Le, NumberAt, Holds, Image, Table, Blocks, StartAt, Room;
    var a := AreaOf(segs, bs, i);
    HeaderPlaced(segs, entry, bs);
    TableHolds(segs, bs, |segs|, i);
    HoldsPart(Image(segs, entry, bs), 16, Table(segs, bs, |segs|), 16 * i, EntryBytes(a));
    StartsGrow(segs, bs, i, |segs|);
    RoomFacts(a.size, bs);
    FewBlocks(a.size, bs);
    FourNumbers(Image(segs, entry, bs), 16 + 16 * i, a.start, a.ptr, a.size, a.blocks);
  }

  lemma FewBlocks(size: nat, bs: block)
    ensures Blocks(size, bs) <= size
  {
  }

  /** Blocks are counted so that the last one is needed; the first area starts on the
      first block boundary behind the checksum, every other where the one before ends. */
  lemma StartsAre(segs: seq<Segment>, bs: block, i: nat)
    requires i < |segs|
    ensures var b, size := Blocks(|segs[i].data|, bs), |segs[i].data|;
            size <= b * bs < size + bs && StartAt(segs, bs, i + 1) == StartAt(segs, bs, i) + b * bs
    ensures StartAt(segs, bs, 0) % bs == 0
    ensures 20 + 64 * |segs| <= StartAt(segs, bs, 0) < 20 + 64 * |segs| + bs
  {
    hide Blocks, StartAt, RoundUp4;
    RoomFacts(|segs[i].data|, bs);
    NextStart(segs, bs, i);
    RoomFacts(20 + 64 * |segs|, bs);
    FirstStart(segs, bs);
  }

  lemma NextStart(segs: seq<Segment>, bs: block, i: nat)
    requires i < |segs|
    ensures StartAt(segs, bs, i + 1) == StartAt(segs, bs, i) + Room(|segs[i].data|, bs)
  {
    hide Room;
  }

  lemma FirstStart(segs: seq<Segment>, bs: block)
    ensures StartAt(segs, bs, 0) == Room(20 + 64 * |segs|, bs)
  {
    hide Room;
  }

  lemma FrontParts(head: seq<byte>, crc: seq<byte>, rest: seq<byte>, f: seq<byte>)
    requires head + crc + rest <= f
    ensures |head| + |crc| <= |f| && f[..|head|] == head && f[|head|..|head| + |crc|] == crc
  {
    var front := head + crc + rest;
    assert f[..|head|] == front[..|head|] == head;
    assert f[|head|..|head| + |crc|] == front[|head|..|head| + |crc|] == crc;
  }

  lemma HeadEnds(segs: seq<Segment>, entry: word, bs: block)
    ensures var head, n := Head(segs, entry, bs), |segs|; forall k :: 16 + 16 * n <= k < 16 + 64 * n ==> head[k] == 0
  {
    hide HeaderBytes, Table, Size;
  }

  /** The checksum of the first 16 + 64 n bytes lies behind them, for n areas; from the
      table's end up to it there are zeros. */
  lemma ChecksumPlace(segs: seq<Segment>, entry: word, bs: block)
    ensures var f, n := Image(segs, entry, bs), |segs|;
            20 + 64 * n <= |f| && f[16 + 64 * n..20 + 64 * n] == Crc.Pack(Crc.StandardCrc(f[..16 + 64 * n])) &&
            forall k :: 16 + 16 * n <= k < 16 + 64 * n ==> f[k] == 0
  {
    hide Head, Room, StartAt, Crc.Pack, Crc.Crc, Crc.StandardCrc;
    RoomFacts(16 + 64 * |segs| + 4, bs);
    FirstStart(segs, bs);
    ImageGrows(segs, entry, bs, 0, |segs|);
    var f, head, n := Image(segs, entry, bs), Head(segs, entry, bs), |segs|;
    Crc.IsStandard(head);
    FrontParts(head, Crc.Pack(Crc.Crc(head)), Zeros(StartAt(segs, bs, 0) - (16 + 64 * n) - 4), f);
    HeadEnds(segs, entry, bs);
    assert forall k :: 0 <= k < 16 + 64 * n ==> f[k] == f[..16 + 64 * n][k];
  }
}
