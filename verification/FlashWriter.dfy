/** The image generator as an object that appends to a buffer
    (sw/pulp-runtime/bin/plp_flash_stimuli.py). */
module FlashWriter {
  import opened Words
  import opened FlashFormat
  import Crc

  class BinarySegment {
    const base: word
    const data: seq<byte>
    var size: nat
    var nbBlocks: nat
    var offset: nat

    constructor (base: word, data: seq<byte>)
      ensures this.base == base && this.data == data && size == |data|
    {
      this.base, this.data := base, data;
      size, nbBlocks, offset := |data|, 0, 0;
    }

    function Segment(): Segment {
      FlashFormat.Segment(base, data)
    }
  }

  class FlashImage {
    var buff: seq<byte>
    var flashOffset: int
    var fsOffset: int
    const blockSize: nat
    const bootaddr: word
    const segments: seq<BinarySegment>
    const entry: word

    constructor (hyper: bool, segments: seq<BinarySegment>, entry: word)
      ensures buff == [] && flashOffset == 0 && this.segments == segments && this.entry == entry
      ensures blockSize == (if hyper then 1024 else 4096) && bootaddr == BOOTADDR
    {
      this.segments, this.entry := segments, entry;
      blockSize := if hyper then 1024 else 4096;
      bootaddr := 0x1c00_0000;
      buff, flashOffset, fsOffset := [], 0, 0;
    }

    ghost function Segments(): seq<Segment> {
      seq(|segments|, i requires 0 <= i < |segments| => segments[i].Segment())
    }

    /** `__pad` on the image itself; a negative amount appends nothing but still moves
        the offset. */
    method Pad(padsize: int)
      modifies this`buff, this`flashOffset
      ensures buff == old(buff) + Zeros(if padsize < 0 then 0 else padsize)
      ensures flashOffset == old(flashOffset) + padsize
    {
      flashOffset := flashOffset + padsize;
      var i := 0;
      assert Zeros(0) == [];
      while i < padsize
        invariant 0 <= i && (i <= padsize || i == 0)
        invariant buff == old(buff) + Zeros(i) && flashOffset == old(flashOffset) + padsize
      {
        buff := buff + [0];
        i := i + 1;
        assert Zeros(i) == Zeros(i - 1) + [0];
      }
    }

    /** `__pad` on a local buffer. */
    static method PadLocal(padsize: int, buff: seq<byte>) returns (r: seq<byte>)
      ensures r == buff + Zeros(if padsize < 0 then 0 else padsize)
    {
      r := buff;
      var i := 0;
      assert Zeros(0) == [];
      while i < padsize
        invariant 0 <= i && (i <= padsize || i == 0)
        invariant r == buff + Zeros(i)
      {
        r := r + [0];
        i := i + 1;
        assert Zeros(i) == Zeros(i - 1) + [0];
      }
    }

    method AppendBuffer(buffer: seq<byte>, padToOffset: Option<int>)
      modifies this`buff, this`flashOffset
      ensures var pad := if padToOffset.Some? then padToOffset.value - old(flashOffset) else 0;
              buff == old(buff) + Zeros(if pad < 0 then 0 else pad) + buffer &&
              flashOffset == old(flashOffset) + pad + |buffer|
    {
      if padToOffset.Some? {
        Pad(padToOffset.value - flashOffset);
      }
      buff := buff + buffer;
      flashOffset := flashOffset + |buffer|;
    }

    /** The fields the layout pass leaves in segment i. */
    ghost predicate LaidOut(i: nat)
      requires i < |segments| && IsBlockSize(blockSize)
      reads segments[i]
    {
      var s := segments[i];
      Area(s.offset, s.base, s.size, s.nbBlocks) == AreaOf(Segments(), blockSize, i)
    }

    ghost predicate Ready()
      reads segments
    {
      IsBlockSize(blockSize) &&
      (forall i, j :: 0 <= i < j < |segments| ==> segments[i] != segments[j]) &&
      (forall i :: 0 <= i < |segments| ==> segments[i].size == |segments[i].data|)
    }

    /** First pass: where each segment goes; the result is the end of the image. */
    method LayOut() returns (end: nat)
      requires Ready()
      modifies segments
      ensures Ready() && end == Size(Segments(), blockSize)
      ensures forall i :: 0 <= i < |segments| ==> LaidOut(i)
    {
      hide Blocks;
      ghost var segs := Segments();
      var flashOffset: nat := 4 + 4 + 4 + 4 + 16 * 4 * |segments|;
      flashOffset := flashOffset + 4;
      flashOffset := Blocks(flashOffset, blockSize) * blockSize;
      var index := 0;
      while index < |segments|
        invariant 0 <= index <= |segments| && Ready()
        invariant flashOffset == StartAt(segs, blockSize, index)
        invariant forall i :: 0 <= i < index ==> LaidOut(i)
      {
        var segment := segments[index];
        segment.nbBlocks := Blocks(segment.size, blockSize);
        segment.offset := flashOffset;
        RoomFacts(segment.size, blockSize);
        flashOffset := flashOffset + segment.nbBlocks * blockSize;
        index := index + 1;
      }
      end := flashOffset;
    }

    /** The header with its table, padding and checksum. */
    method BuildHeader(end: nat) returns (header: seq<byte>)
      requires Ready() && end == Size(Segments(), blockSize) < TWO32
      requires forall i :: 0 <= i < |segments| ==> LaidOut(i)
      requires flashOffset == 0 && bootaddr == BOOTADDR
      ensures var head := Head(Segments(), entry, blockSize); header == head + Crc.Pack(Crc.Crc(head))
    {
      hide StartAt, Crc.Pack, Crc.Crc, Room, Blocks, Le, Table, HeaderBytes, AreaOf;
      ghost var segs := Segments();
      TableStarts(end, |segs|, entry, segs, blockSize);
      header := Le(end, 4);
      header := header + Le(|segments|, 4);
      header := header + Le(entry, 4);
      header := header + Le(bootaddr, 4);
      var index := 0;
      while index < |segments|
        invariant 0 <= index <= |segments|
        invariant header == HeaderBytes(end, |segs|, entry) + Table(segs, blockSize, index)
      {
        var area := segments[index];
        assert LaidOut(index);
        header := header + Le(area.offset, 4);
        header := header + Le(area.base, 4);
        header := header + Le(area.size, 4);
        header := header + Le(area.nbBlocks, 4);
        Entered(HeaderBytes(end, |segs|, entry), segs, blockSize, index);
        index := index + 1;
      }
      header := PadLocal(4 + 4 + 4 + 4 + 16 * 4 * |segments| - flashOffset - |header|, header);
      var crc := Crc.GetCrc(header);
      header := header + Crc.Pack(crc);
    }

    /** Last pass: the segments' contents, each padded to its start. */
    method AppendSegments()
      requires Ready() && forall i :: 0 <= i < |segments| ==> LaidOut(i)
      requires flashOffset == |buff| <= StartAt(Segments(), blockSize, 0)
      requires buff + Zeros(StartAt(Segments(), blockSize, 0) - |buff|) == Front(Segments(), entry, blockSize)
      modifies this`buff, this`flashOffset
      ensures flashOffset == |buff| <= Size(Segments(), blockSize)
      ensures buff + Zeros(Size(Segments(), blockSize) - |buff|) == Image(Segments(), entry, blockSize)
    {
      hide StartAt, Front, ImageTo, Room, Blocks;
      ghost var segs := Segments();
      FrontFits(segs, entry, blockSize);
      var index := 0;
      while index < |segments|
        invariant 0 <= index <= |segments|
        invariant flashOffset == |buff| <= StartAt(segs, blockSize, index)
        invariant buff + Zeros(StartAt(segs, blockSize, index) - |buff|) == ImageTo(segs, entry, blockSize, index)
      {
        var area := segments[index];
        assert LaidOut(index);
        ghost var was := buff;
        AppendBuffer(area.data, Some(area.offset));
        NextImage(segs, entry, blockSize, index, was, buff);
        index := index + 1;
      }
    }

    /** `__dumpFlashHeader_v2` builds the image of the specification, byte for byte. */
    method DumpFlashHeaderV2()
      requires Ready() && buff == [] && flashOffset == 0 && bootaddr == BOOTADDR
      requires Size(Segments(), blockSize) < TWO32
      modifies this, segments
      ensures Ready() && buff == Image(Segments(), entry, blockSize)
      ensures flashOffset == fsOffset == |buff|
      ensures forall i :: 0 <= i < |segments| ==> LaidOut(i)
    {
      hide StartAt, Crc.Pack, Crc.Crc, Head, Room, Blocks, ImageTo;
      ghost var segs := Segments();
      var end := LayOut();
      fsOffset := (end + 7) / 8 * 8;
      var header := BuildHeader(end);
      AppendBuffer(header, None);
      FrontFits(segs, entry, blockSize);
      assert buff == header;
      AppendSegments();
      Pad(fsOffset - flashOffset);
    }
  }

  /** The four words of a table entry, appended one by one. */
  lemma Entered(front: seq<byte>, segs: seq<Segment>, bs: block, i: nat)
    requires i < |segs|
    ensures var a := AreaOf(segs, bs, i);
            front + Table(segs, bs, i) + Le(a.start, 4) + Le(a.ptr, 4) + Le(a.size, 4) + Le(a.blocks, 4) ==
            front + Table(segs, bs, i + 1)
  {
    hide Le, AreaOf;
  }

  lemma TableStarts(end: nat, n: nat, entry: nat, segs: seq<Segment>, bs: block)
    ensures Le(end, 4) + Le(n, 4) + Le(entry, 4) + Le(BOOTADDR, 4) ==
            HeaderBytes(end, n, entry) + Table(segs, bs, 0)
  {
    hide Le;
  }

  lemma FrontFits(segs: seq<Segment>, entry: nat, bs: block)
    ensures ImageTo(segs, entry, bs, 0) == Front(segs, entry, bs)
    ensures HeaderRoom(|segs|) + 4 <= StartAt(segs, bs, 0) <= Size(segs, bs)
  {
    hide Blocks, Room;
    RoomFacts(HeaderRoom(|segs|) + 4, bs);
    StartsGrow(segs, bs, 0, |segs|);
  }

  /** Appending the next segment at its start, when what was there needed padding to
      reach it. */
  lemma NextImage(segs: seq<Segment>, entry: nat, bs: block, i: nat, was: seq<byte>, now: seq<byte>)
    requires i < |segs| && |was| <= StartAt(segs, bs, i)
    requires was + Zeros(StartAt(segs, bs, i) - |was|) == ImageTo(segs, entry, bs, i)
    requires now == was + Zeros(StartAt(segs, bs, i) - |was|) + segs[i].data
    ensures |now| == StartAt(segs, bs, i) + |segs[i].data| <= StartAt(segs, bs, i + 1)
    ensures now + Zeros(StartAt(segs, bs, i + 1) - |now|) == ImageTo(segs, entry, bs, i + 1)
  {
    hide Room, StartAt, ImageTo;
    RoomFacts(|segs[i].data|, bs);
    NextStart(segs, entry, bs, i);
  }

  lemma NextStart(segs: seq<Segment>, entry: nat, bs: block, i: nat)
    requires i < |segs|
    ensures var data, room := segs[i].data, Room(|segs[i].data|, bs);
            |data| <= room && StartAt(segs, bs, i + 1) == StartAt(segs, bs, i) + room &&
            ImageTo(segs, entry, bs, i + 1) == ImageTo(segs, entry, bs, i) + data + Zeros(room - |data|)
  {
    hide Room, Front;
    RoomFacts(|segs[i].data|, bs);
  }
}
