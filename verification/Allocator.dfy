/** The allocator as an object updated in place: chunk headers in memory, the pointer
    to the first free chunk, and the bank counters (sw/pulp-runtime/kernel/alloc.c). */
module Allocator {
  import opened Words
  import opened FreeList
  import opened Divisibility
  import opened AllocLaws
  import opened Banks
  import opened ChunkMemory

  class PosAlloc {
    const mem: array<Header>
    var firstFree: nat
    ghost var chunks: list

    var trackPwd: bool
    const pwdCount: array<word>
    var bankSize: nat
    var firstBank: nat
    var power: seq<PowerEvent>

    /** Counters exist for every byte the allocator may hand out. */
    ghost predicate BanksCover()
      reads this
    {
      0 < bankSize < TWO31 && pwdCount.Length <= 32 && 0 <= firstBank &&
      AtLeast(chunks, firstBank) && Within(chunks, BankLo(firstBank, bankSize, pwdCount.Length))
    }

    ghost predicate Valid()
      reads this, mem
    {
      (mem as object) != pwdCount && HEADER * mem.Length <= INT_MAX &&
      Canonical(chunks) && Within(chunks, HEADER * mem.Length) && Linked(mem[..], chunks) &&
      firstFree == AddrAt(chunks, 0) && (trackPwd ==> BanksCover())
    }

    /** A region of memory, rounded inward to whole granules; without at least one the
        source's list would have an unwritten header. */
    constructor Init(memory: array<Header>, counts: array<word>, chunk: nat, size: nat)
      requires HEADER * memory.Length <= INT_MAX && (memory as object) != counts
      requires chunk > 0 && chunk + size <= HEADER * memory.Length
      requires RoundUp8(chunk) + HEADER <= chunk + size
      modifies memory
      ensures Valid() && mem == memory && pwdCount == counts && !trackPwd && power == []
      ensures chunks == [Chunk(RoundUp8(chunk), (chunk + size - RoundUp8(chunk)) / HEADER * HEADER)]
    {
      mem := memory;
      pwdCount := counts;
      trackPwd, bankSize, firstBank, power := false, 0, 0, [];
      var aligned := RoundUp8(chunk);
      firstFree := aligned;
      var left := size - (aligned - chunk);
      chunks := [Chunk(aligned, left / HEADER * HEADER)];
      new;
      memory[Slot(aligned)] := Header(left / HEADER * HEADER, 0);
    }

    /** Walks the list: the number of free bytes, the first chunk and how many there
        are. */
    method Info() returns (size: nat, first: nat, count: nat)
      requires Valid()
      ensures size == Count(FreeSet(chunks), 0, HEADER * mem.Length)
      ensures first == AddrAt(chunks, 0) && count == |chunks|
    {
      hide Canonical, Linked, Slot, Count, FreeSet;
      size, first, count := 0, firstFree, 0;
      var pt := firstFree;
      ChunkLoad(mem[..], chunks, 0);
      while pt != 0
        invariant 0 <= count <= |chunks| && pt == AddrAt(chunks, count) && size == TotalSize(chunks[..count])
        invariant pt == 0 <==> count == |chunks|
        invariant count < |chunks| ==>
                    Slot(pt) < mem.Length && mem[Slot(pt)] == Header(chunks[count].size, AddrAt(chunks, count + 1))
        decreases |chunks| - count
      {
        assert chunks[..count + 1][..count] == chunks[..count];
        size := size + mem[Slot(pt)].size;
        count := count + 1;
        pt := mem[Slot(pt)].next;
        ChunkLoad(mem[..], chunks, count);
      }
      assert chunks[..count] == chunks;
      TotalIsCount(chunks, 0, HEADER * mem.Length);
    }

    // ------------------------------------------------------------- banks

    /** Walks the banks under a stretch of memory, one step per bank. */
    method Account(chunk: nat, size0: nat, factor: int)
      requires factor in {1, -1} && 0 < bankSize < TWO31 && pwdCount.Length <= 32 && firstBank <= chunk
      requires chunk + size0 <= BankLo(firstBank, bankSize, pwdCount.Length)
      modifies pwdCount, this`power
      ensures pwdCount[..] == Charged(old(pwdCount[..]), chunk, chunk + size0, factor, firstBank, bankSize)
      ensures power == old(power) +
                       CallMade(old(pwdCount[..]), pwdCount[..], chunk, chunk + size0, factor, firstBank, bankSize)
    {
      hide Overlap, BankLo, Counted, Named, Walked, Charged, CallMade;
      var size: nat := size0;
      var chunkAddr := chunk - firstBank;
      var bank: nat := chunkAddr / bankSize;
      FirstBank(firstBank, bankSize, chunk);
      BankOffset(firstBank, bankSize, chunk);
      BankStep(firstBank, bankSize, bank);
      var addr := chunkAddr / bankSize * bankSize;
      var iterSize := addr + bankSize - chunkAddr;
      if iterSize > size {
        iterSize := size;
      }
      var ctrl: set<nat> := {};
      ghost var was, end, b0 := pwdCount[..], chunk + size0, bank;
      WalkStart(was, factor, bankSize, chunk, end, firstBank, b0);
      while size > 0
        invariant b0 <= bank && 0 <= size <= size0
        invariant size > 0 ==> BankLo(firstBank, bankSize, bank) <= end - size < BankLo(firstBank, bankSize, bank + 1)
        invariant var next := BankLo(firstBank, bankSize, bank + 1);
                  size > 0 ==> iterSize == if next < end then next - (end - size) else size
        invariant size > 0 ==>
                    (bank == b0 && end - size == chunk) ||
                    (bank > b0 && end - size == BankLo(firstBank, bankSize, bank))
        invariant size == 0 ==> size0 == 0 || end <= BankLo(firstBank, bankSize, bank)
        invariant power == old(power)
        invariant Walked(was, pwdCount[..], factor, bankSize, chunk, end, firstBank, b0, bank, ctrl)
        decreases size
      {
        BankInRange(firstBank, bankSize, bank, pwdCount.Length, end - size);
        BankSlice(firstBank, bankSize, bank, chunk, end - size, end);
        BankStep(firstBank, bankSize, bank);
        BankStep(firstBank, bankSize, bank + 1);
        WalkStep(was, pwdCount[..], factor, bankSize, chunk, end, firstBank, b0, bank, ctrl, iterSize);
        ghost var now, count := pwdCount[..], Counted(pwdCount[bank], factor, iterSize);
        if factor == -1 && pwdCount[bank] == bankSize {
          ctrl := ctrl + {bank};
        }
        pwdCount[bank] := Counted(pwdCount[bank], factor, iterSize);
        if pwdCount[bank] == bankSize {
          ctrl := ctrl + {bank};
        }
        assert pwdCount[..] == now[bank := count];
        addr := addr + bankSize;
        size := size - iterSize;
        iterSize := bankSize;
        bank := bank + 1;
        if iterSize > size {
          iterSize := size;
        }
      }
      AccountResult(was, pwdCount[..], factor, bankSize, chunk, end, firstBank, b0, bank, ctrl);
      if ctrl != {} {
        power := power + [PowerEvent(ctrl, factor == -1)];
      }
    }
  
    /** How a counter has to move when the free list goes from was to now: by the change
        in the number of payload bytes of its bank. */
    ghost predicate CountsFollow(was: list, now: list, counts: seq<word>)
      reads this, pwdCount
    {
      if trackPwd then Follows(counts, pwdCount[..], was, now, firstBank, bankSize) else pwdCount[..] == counts
    }

    /** The counters are the numbers of free payload bytes of their banks. */
    ghost predicate Exact(cs: list, counts: seq<word>)
      reads this
    {
      trackPwd && 0 < bankSize < TWO31 && counts == BankCounts(cs, firstBank, bankSize, pwdCount.Length)
    }

    /** A stretch that is accounted lies in the banks. */
    ghost predicate InBanks(chunk: int, size: int)
      reads this
    {
      trackPwd ==>
        0 < bankSize < TWO31 && pwdCount.Length <= 32 && firstBank <= chunk &&
        chunk + size <= BankLo(firstBank, bankSize, pwdCount.Length)
    }

    method AccountAlloc(chunk: nat, size: nat)
      requires InBanks(chunk, size)
      modifies pwdCount, this`power
      ensures !trackPwd ==> pwdCount[..] == old(pwdCount[..]) && power == old(power)
      ensures trackPwd ==> pwdCount[..] == Charged(old(pwdCount[..]), chunk, chunk + size, -1, firstBank, bankSize)
      ensures trackPwd ==>
                power == old(power) +
                         CallMade(old(pwdCount[..]), pwdCount[..], chunk, chunk + size, -1, firstBank, bankSize)
    {
      if trackPwd {
        Account(chunk, size, -1);
      }
    }

    method AccountFree(chunk: nat, size: nat)
      requires InBanks(chunk, size)
      modifies pwdCount, this`power
      ensures !trackPwd ==> pwdCount[..] == old(pwdCount[..]) && power == old(power)
      ensures trackPwd ==> pwdCount[..] == Charged(old(pwdCount[..]), chunk, chunk + size, 1, firstBank, bankSize)
      ensures trackPwd ==>
                power == old(power) +
                         CallMade(old(pwdCount[..]), pwdCount[..], chunk, chunk + size, 1, firstBank, bankSize)
    {
      if trackPwd {
        Account(chunk, size, 1);
      }
    }

    // -------------------------------------------------------- allocation

    /** Walks the list to the first chunk that is large enough. */
    method SearchFit(size: nat) returns (pt: nat, prev: nat, ghost i: nat)
      requires Valid()
      ensures i == Fit(chunks, size) <= |chunks| && pt == AddrAt(chunks, i) && prev == Prev(chunks, i)
      ensures pt == 0 <==> i == |chunks|
      ensures i < |chunks| ==>
                Slot(pt) < mem.Length && mem[Slot(pt)] == Header(chunks[i].size, AddrAt(chunks, i + 1))
    {
      hide Canonical, Fit, Slot, Linked;
      pt, prev, i := firstFree, 0, 0;
      ghost var cs, was := chunks, mem[..];
      ChunkLoad(was, cs, 0);
      while pt != 0 && mem[Slot(pt)].size < size
        invariant 0 <= i <= |cs| && pt == AddrAt(cs, i) && prev == Prev(cs, i)
        invariant pt == 0 <==> i == |cs|
        invariant i < |cs| ==> Slot(pt) < mem.Length && mem[Slot(pt)] == Header(cs[i].size, AddrAt(cs, i + 1))
        invariant forall k :: 0 <= k < i ==> cs[k].size < size
        decreases |cs| - i
      {
        prev, pt := pt, mem[Slot(pt)].next;
        i := i + 1;
        ChunkLoad(was, cs, i);
      }
      FitIs(cs, size, i);
    }

    /** Walks the list to where a block at `chunk` belongs. */
    method SearchPlace(chunk: nat) returns (next: nat, prev: nat, ghost i: nat)
      requires Valid()
      ensures i == Before(chunks, chunk) <= |chunks| && next == AddrAt(chunks, i) && prev == Prev(chunks, i)
      ensures next == 0 <==> i == |chunks|
      ensures i < |chunks| ==>
                Slot(next) < mem.Length && mem[Slot(next)] == Header(chunks[i].size, AddrAt(chunks, i + 1))
    {
      hide Canonical, Before, Slot, Linked;
      next, prev, i := firstFree, 0, 0;
      ghost var cs, was := chunks, mem[..];
      ChunkLoad(was, cs, 0);
      while next != 0 && next < chunk
        invariant 0 <= i <= |cs| && next == AddrAt(cs, i) && prev == Prev(cs, i)
        invariant next == 0 <==> i == |cs|
        invariant i < |cs| ==> Slot(next) < mem.Length && mem[Slot(next)] == Header(cs[i].size, AddrAt(cs, i + 1))
        invariant forall k :: 0 <= k < i ==> cs[k].addr < chunk
        decreases |cs| - i
      {
        prev, next := next, mem[Slot(next)].next;
        i := i + 1;
        ChunkLoad(was, cs, i);
      }
      BeforeIs(cs, chunk, i);
    }

    /** First fit. The free list becomes that of the specification, and so do the
        counters. */
    method Alloc(size0: nat) returns (r: Option<nat>)
      requires Valid() && 0 < size0 <= INT_MAX - 7
      modifies this`firstFree, this`chunks, this`power, mem, pwdCount
      ensures Valid()
      ensures (r, chunks) == Take(old(chunks), RoundUp8(size0))
      ensures CountsFollow(old(chunks), chunks, old(pwdCount[..]))
      ensures old(Exact(chunks, pwdCount[..])) ==>
                Exact(chunks, pwdCount[..]) &&
                power == old(power) + TakePower(old(chunks), RoundUp8(size0), firstBank, bankSize, pwdCount.Length)
    {
      hide Canonical, Within, Take, Shrink, Fit, Overlap, Counted, BankLo, Count, Payload, Slot, Linked, AtLeast,
        Redirect;
      var size := RoundUp8(size0);
      ghost var cs, was, counts := chunks, mem[..], pwdCount[..];
      var pt, prev, i := SearchFit(size);
      TakeCases(cs, size);
      if pt == 0 {
        NothingFollows(cs);
        return None;
      }
      r := Some(pt);
      TakeWrites(was, cs, i, size);
      PrevFacts(was, cs, i);
      ShrinkWithin(cs, i, size, HEADER * mem.Length);
      TakeCanonical(cs, size);
      if trackPwd {
        BoundsOf(cs, i, firstBank, BankLo(firstBank, bankSize, pwdCount.Length));
        ShrinkWithin(cs, i, size, BankLo(firstBank, bankSize, pwdCount.Length));
        ShrinkAtLeast(cs, i, size, firstBank);
      }
      if mem[Slot(pt)].size == size {
        SetLink(prev, mem[Slot(pt)].next);
        assert Linked(mem[..], Shrink(cs, i, size));
        AccountTaken(cs, i, pt, size, true);
      } else {
        var newPt := pt + size;
        mem[Slot(newPt)] := Header(mem[Slot(pt)].size - size, mem[Slot(pt)].next);
        assert mem[..] == was[Slot(newPt) := Header(cs[i].size - size, AddrAt(cs, i + 1))];
        SetLink(prev, newPt);
        assert Linked(mem[..], Shrink(cs, i, size));
        AccountTaken(cs, i, pt, size, false);
      }
      chunks := Shrink(cs, i, size);
      assert Canonical(chunks);
      assert Within(chunks, HEADER * mem.Length);
      assert firstFree == AddrAt(chunks, 0);
      assert Linked(mem[..], chunks);
      assert trackPwd ==> BanksCover();
      assert CountsFollow(cs, chunks, counts);
    }

    /** The accounting of an allocation: the block behind its header, which was
        accounted when it was freed, and the header of the rest. */
    method AccountTaken(ghost cs: list, ghost i: nat, pt: nat, n: nat, whole: bool)
      requires Canonical(cs) && n > 0 && n % HEADER == 0 && i == Fit(cs, n) < |cs|
      requires pt == cs[i].addr && (whole <==> cs[i].size == n)
      requires trackPwd ==> 0 < bankSize < TWO31 && pwdCount.Length <= 32 && 0 <= firstBank &&
                            AtLeast(cs, firstBank) && Within(cs, BankLo(firstBank, bankSize, pwdCount.Length))
      modifies pwdCount, this`power
      ensures CountsFollow(cs, Take(cs, n).1, old(pwdCount[..]))
      ensures old(Exact(cs, pwdCount[..])) ==>
                Exact(Take(cs, n).1, pwdCount[..]) &&
                power == old(power) + TakePower(cs, n, firstBank, bankSize, pwdCount.Length)
    {
      hide Canonical, Within, Take, Fit, Overlap, Counted, BankLo, Count, Payload, AtLeast, BankCounts, CallMade,
        Charged, TakePower;
      ghost var counts := pwdCount[..];
      if trackPwd {
        BoundsOf(cs, i, firstBank, BankLo(firstBank, bankSize, pwdCount.Length));
      }
      if !whole {
        RestHasHeader(cs, i, n);
      }
      AccountAlloc(pt + HEADER, n - HEADER);
      ghost var once := pwdCount[..];
      if !whole {
        AccountAlloc(pt + n, HEADER);
      }
      if trackPwd {
        TakeCharges(counts, once, pwdCount[..], cs, n, firstBank, bankSize);
        if counts == BankCounts(cs, firstBank, bankSize, pwdCount.Length) {
          TakeCalls(counts, once, pwdCount[..], cs, n, firstBank, bankSize, pwdCount.Length);
        }
      }
    }

    /** Redirects the link to a chunk: in the chunk before it, or the first-free
        pointer. */
    method SetLink(prev: nat, next: nat)
      requires prev != 0 ==> Slot(prev) < mem.Length
      modifies this`firstFree, mem
      ensures mem[..] == Redirect(old(mem[..]), prev, next)
      ensures firstFree == if prev != 0 then old(firstFree) else next
    {
      if prev != 0 {
        mem[Slot(prev)] := mem[Slot(prev)].(next := next);
      } else {
        firstFree := next;
      }
    }

    lemma NothingFollows(cs: list)
      ensures CountsFollow(cs, cs, pwdCount[..])
    {
      hide Count, Payload;
    }
  
    /** Insertion in address order with joining on both sides. */
    method Free(chunk: nat, size0: nat)
      requires Valid() && 0 < size0 <= INT_MAX - 7
      requires Held(chunks, chunk, RoundUp8(size0)) && chunk + RoundUp8(size0) <= HEADER * mem.Length
      requires trackPwd ==>
                 firstBank <= chunk && chunk + RoundUp8(size0) <= BankLo(firstBank, bankSize, pwdCount.Length)
      modifies this`firstFree, this`chunks, this`power, mem, pwdCount
      ensures Valid()
      ensures chunks == Put(old(chunks), chunk, RoundUp8(size0))
      ensures CountsFollow(old(chunks), chunks, old(pwdCount[..]))
      ensures old(Exact(chunks, pwdCount[..])) ==>
                Exact(chunks, pwdCount[..]) &&
                power == old(power) +
                         PutPower(old(chunks), chunk, RoundUp8(size0), firstBank, bankSize, pwdCount.Length)
    {
      hide Canonical, Within, Put, Before, Overlap, Counted, BankLo, Count, Payload, Slot, Linked, AtLeast,
        Redirect, Held;
      var size := RoundUp8(size0);
      ghost var cs, was, counts := chunks, mem[..], pwdCount[..];
      var next, prev, i := SearchPlace(chunk);
      PrevFacts(was, cs, i);
      HeldSlots(was, cs, chunk, size);
      HeldNotNull(cs, chunk, size);
      var nextJoins := chunk + size == next;
      if nextJoins {
        mem[Slot(chunk)] := Header(size + mem[Slot(next)].size, mem[Slot(next)].next);
      } else {
        mem[Slot(chunk)] := Header(size, next);
      }
      assert mem[..] == was[Slot(chunk) := BlockHeader(cs, chunk, size)];
      var prevJoins := prev != 0 && prev + mem[Slot(prev)].size == chunk;
      if prevJoins {
        mem[Slot(prev)] := Header(mem[Slot(prev)].size + mem[Slot(chunk)].size, mem[Slot(chunk)].next);
      } else {
        SetLink(prev, chunk);
      }
      PutWrites(was, mem[..], cs, chunk, size);
      PutCanonical(cs, chunk, size);
      PutWithin(cs, chunk, size, HEADER * mem.Length);
      if trackPwd {
        PutWithin(cs, chunk, size, BankLo(firstBank, bankSize, pwdCount.Length));
        PutAtLeast(cs, chunk, size, firstBank);
      }
      AccountReleased(cs, chunk, size, next, nextJoins, prevJoins);
      chunks := Put(cs, chunk, size);
    }

    /** The accounting of a free: the header of a chunk joined behind, and the block,
        less its header when it keeps one. */
    method AccountReleased(ghost cs: list, a: nat, n: nat, next: nat, nextJoins: bool, prevJoins: bool)
      requires Canonical(cs) && Held(cs, a, n) && n >= HEADER
      requires (nextJoins <==> NextAdjacent(cs, a, n)) && (prevJoins <==> PrevAdjacent(cs, a))
      requires nextJoins ==> next == a + n
      requires trackPwd ==> 0 < bankSize < TWO31 && pwdCount.Length <= 32 && 0 <= firstBank <= a &&
                            AtLeast(cs, firstBank) && Within(cs, BankLo(firstBank, bankSize, pwdCount.Length)) &&
                            a + n <= BankLo(firstBank, bankSize, pwdCount.Length)
      modifies pwdCount, this`power
      ensures CountsFollow(cs, Put(cs, a, n), old(pwdCount[..]))
      ensures old(Exact(cs, pwdCount[..])) ==>
                Exact(Put(cs, a, n), pwdCount[..]) &&
                power == old(power) + PutPower(cs, a, n, firstBank, bankSize, pwdCount.Length)
    {
      hide Canonical, Within, Put, Before, Overlap, Counted, BankLo, Count, Payload, AtLeast, Held, PrevAdjacent,
        BankCounts, CallMade, Charged, PutPower;
      ghost var counts := pwdCount[..];
      if nextJoins {
        if trackPwd {
          BoundsOf(cs, Before(cs, a), firstBank, BankLo(firstBank, bankSize, pwdCount.Length));
          NextOf(cs, Before(cs, a));
        }
        AccountFree(next, HEADER);
      }
      ghost var once := pwdCount[..];
      if prevJoins {
        AccountFree(a, n);
      } else {
        AccountFree(a + HEADER, n - HEADER);
      }
      if trackPwd {
        PutCharges(counts, once, pwdCount[..], cs, a, n, firstBank, bankSize);
        if counts == BankCounts(cs, firstBank, bankSize, pwdCount.Length) {
          PutCalls(counts, once, pwdCount[..], cs, a, n, firstBank, bankSize, pwdCount.Length);
        }
      }
    }
  
    /** Frees what is before the first aligned address of a reservation and what is after
        the block. */
    method ReleaseAround(ghost cs: list, result: nat, sizeAlign: nat, size: nat, align: nat) returns (resultAlign: nat)
      requires Valid() && Canonical(cs) && size > 0 && size % HEADER == 0 && PowerOfTwo(align) && align >= HEADER
      requires sizeAlign == size + align + HEADER * 2 <= INT_MAX - 7 && Take(cs, sizeAlign) == (Some(result), chunks)
      requires AtLeast(cs, 0) && Within(cs, HEADER * mem.Length)
      requires trackPwd ==> AtLeast(cs, firstBank) && Within(cs, BankLo(firstBank, bankSize, pwdCount.Length))
      modifies this`firstFree, this`chunks, this`power, mem, pwdCount
      ensures Valid()
      ensures (Some(resultAlign), chunks) == TakeAligned(cs, size, align)
      ensures CountsFollow(old(chunks), chunks, old(pwdCount[..]))
      ensures old(Exact(chunks, pwdCount[..])) ==>
                Exact(chunks, pwdCount[..]) &&
                power == old(power) + AroundPower(old(chunks), result, RoundUp(result, align), size, sizeAlign,
                                                  firstBank, bankSize, pwdCount.Length)
    {
      hide Canonical, Within, Put, Take, TakeAligned, RoundUp, RoundUp8, BankLo, Linked, Held, PowerOfTwo, Follows,
        Redirect, BankCounts, PutPower, AroundPower;
      ghost var t0, c1 := chunks, pwdCount[..];
      var ra: int := RoundUp(result, align);
      var headerSize := ra - result;
      ghost var t1 := FrontFreed(t0, result, ra);
      AlignedFreesHeld(cs, size, align, sizeAlign, result, ra, headerSize, t0, t1);
      TailRounded(sizeAlign, headerSize, size);
      TakeWithin(cs, sizeAlign, 0, HEADER * mem.Length);
      if trackPwd {
        TakeWithin(cs, sizeAlign, firstBank, BankLo(firstBank, bankSize, pwdCount.Length));
        AroundAfter(power, t0, result, ra, size, sizeAlign, firstBank, bankSize, pwdCount.Length);
      }
      if headerSize != 0 {
        if ra - result < HEADER {
          ra := ra + align;
        }
        Free(result, headerSize);
      }
      ghost var c2 := pwdCount[..];
      Free(ra + size, sizeAlign - headerSize - size);
      resultAlign := ra;
      if trackPwd && headerSize != 0 {
        FollowsTrans(c1, c2, pwdCount[..], t0, t1, chunks, firstBank, bankSize);
      }
    }

    /** Reserve more than needed, then free what is before the first aligned address
        and what is after the block. Aligning is done with masks in the source, hence
        the power of two. */
    method AllocAlign(size: nat, align: nat) returns (r: Option<nat>)
      requires Valid() && size > 0 && align > 0 && size + align + HEADER * 2 <= INT_MAX - 7
      requires align >= HEADER ==> size % HEADER == 0 && PowerOfTwo(align)
      modifies this`firstFree, this`chunks, this`power, mem, pwdCount
      ensures Valid()
      ensures (r, chunks) == TakeAligned(old(chunks), size, align)
      ensures CountsFollow(old(chunks), chunks, old(pwdCount[..]))
      ensures old(Exact(chunks, pwdCount[..])) ==>
                Exact(chunks, pwdCount[..]) &&
                power == old(power) + AlignedPower(old(chunks), size, align, firstBank, bankSize, pwdCount.Length)
    {
      hide Canonical, Within, Put, Take, RoundUp, BankLo, Linked, Held, PowerOfTwo, Follows, Redirect, Exact, TakePower,
        AroundPower;
      if align < HEADER {
        r := Alloc(size);
        return;
      }
      ghost var cs, c0 := chunks, pwdCount[..];
      var sizeAlign := size + align + HEADER * 2;
      AlignMultiple(align);
      assert RoundUp8(sizeAlign) == sizeAlign;
      r := Alloc(sizeAlign);
      if r == None {
        return;
      }
      ghost var t0, c1 := chunks, pwdCount[..];
      var resultAlign := ReleaseAround(cs, r.value, sizeAlign, size, align);
      r := Some(resultAlign);
      if trackPwd {
        FollowsTrans(c0, c1, pwdCount[..], cs, t0, chunks, firstBank, bankSize);
      }
    }
  }
}
