/** Laws of the allocator over whole histories: conservation of bytes, independence
    of the order of frees, inverses, aligned allocation
    (sw/pulp-runtime/kernel/alloc.c). */
module AllocLaws {
  import opened Words
  import opened FreeList
  import opened Divisibility

  /** Allocating and freeing again restores the exact list. */
  lemma TakePutInverse(cs: list, n: nat)
    requires Canonical(cs) && n > 0 && n % HEADER == 0 && Take(cs, n).0.Some?
    ensures Held(Take(cs, n).1, Take(cs, n).0.value, n)
    ensures Put(Take(cs, n).1, Take(cs, n).0.value, n) == cs
  {
    var (r, t) := Take(cs, n);
    var a := r.value;
    TakeProper(cs, n);
    TakeBytes(cs, n);
    TakeIsFirstFit(cs, n);
    TakeCanonical(cs, n);
    hide Take, Put, Canonical;
    PutBytes(t, a, n);
    PutCanonical(t, a, n);
    assert SameBytes(Put(t, a, n), cs);
    CanonicalUnique(Put(t, a, n), cs);
  }

  lemma TakeProper(cs: list, n: nat)
    requires Canonical(cs) && Take(cs, n).0.Some?
    ensures Take(cs, n).0.value >= HEADER && Take(cs, n).0.value % HEADER == 0
  {
    assert Proper(cs[Fit(cs, n)]);
  }

  // ------------------------------------------------------ order of frees

  function PutAll(cs: list, bs: seq<Chunk>): list
    decreases |bs|
  {
    if bs == [] then cs else PutAll(Put(cs, bs[0].addr, bs[0].size), bs[1..])
  }

  /** Blocks that are held and do not overlap. */
  ghost predicate HeldAll(cs: list, bs: seq<Chunk>) {
    (forall i :: 0 <= i < |bs| ==> Held(cs, bs[i].addr, bs[i].size)) &&
    forall i, j :: 0 <= i < j < |bs| ==> Disjoint(bs[i], bs[j])
  }

  predicate Disjoint(c: Chunk, d: Chunk) {
    c.End() <= d.addr || d.End() <= c.addr
  }

  ghost predicate InSome(bs: seq<Chunk>, b: int) {
    exists c :: c in bs && c.Has(b)
  }

  lemma HeldAllTail(cs: list, bs: seq<Chunk>)
    requires Canonical(cs) && HeldAll(cs, bs) && bs != []
    ensures Canonical(Put(cs, bs[0].addr, bs[0].size))
    ensures HeldAll(Put(cs, bs[0].addr, bs[0].size), bs[1..])
  {
    hide Canonical, Put, Free;
    var c := bs[0];
    PutCanonical(cs, c.addr, c.size);
    PutBytes(cs, c.addr, c.size);
    forall i | 0 <= i < |bs[1..]|
      ensures Held(Put(cs, c.addr, c.size), bs[1..][i].addr, bs[1..][i].size)
    {
      assert bs[1..][i] == bs[i + 1];
      assert Disjoint(bs[0], bs[i + 1]);
      assert Held(cs, bs[i + 1].addr, bs[i + 1].size);
    }
  }

  lemma {:induction false} PutAllBytes(cs: list, bs: seq<Chunk>)
    requires Canonical(cs) && HeldAll(cs, bs)
    ensures Canonical(PutAll(cs, bs))
    ensures forall b: int :: Free(PutAll(cs, bs), b) <==> Free(cs, b) || InSome(bs, b)
    decreases |bs|
  {
    hide Canonical, Put, Free, HeldAll;
    if bs != [] {
      var c := bs[0];
      HeldAllTail(cs, bs);
      PutAllBytes(Put(cs, c.addr, c.size), bs[1..]);
      PutBytes(cs, c.addr, c.size);
      forall b: int
        ensures InSome(bs, b) <==> c.Has(b) || InSome(bs[1..], b)
      {
        assert bs == [c] + bs[1..];
      }
    }
  }

  /** The order in which held blocks are freed does not matter: the free lists come
      out identical. */
  lemma FreeOrderIrrelevant(cs: list, xs: seq<Chunk>, ys: seq<Chunk>)
    requires Canonical(cs) && HeldAll(cs, xs) && HeldAll(cs, ys)
    requires multiset(xs) == multiset(ys)
    ensures PutAll(cs, xs) == PutAll(cs, ys)
  {
    hide Canonical, PutAll, Free, HeldAll;
    PutAllBytes(cs, xs);
    PutAllBytes(cs, ys);
    assert forall c: Chunk :: c in xs <==> c in multiset(xs);
    assert forall c: Chunk :: c in ys <==> c in multiset(ys);
    assert forall b: int :: InSome(xs, b) <==> InSome(ys, b);
    assert SameBytes(PutAll(cs, xs), PutAll(cs, ys));
    CanonicalUnique(PutAll(cs, xs), PutAll(cs, ys));
  }

  // ------------------------------------------------------------- histories

  /** The allocator with its clients: the free list and the blocks handed out. */
  datatype Pool = Pool(free: list, held: seq<Chunk>)

  /** A client asks for n bytes, perhaps aligned, or gives back one of the blocks handed
      out. */
  datatype Request = Allocate(n: nat) | AllocateAligned(n: nat, align: nat) | Release(i: nat)

  /** What aligned allocation needs to keep the list in order. */
  predicate Sensible(q: Request) {
    q.AllocateAligned? ==> q.align > 0 && (q.align >= HEADER ==> q.n % HEADER == 0 && PowerOfTwo(q.align))
  }

  function Serve(p: Pool, q: Request): Pool
    requires Sensible(q)
  {
    match q
    case Allocate(n) =>
      var (r, t) := Take(p.free, RoundUp8(n));
      if n > 0 && r.Some? then Pool(t, p.held + [Chunk(r.value, RoundUp8(n))]) else p
    case AllocateAligned(n, align) =>
      var (r, t) := TakeAligned(p.free, n, align);
      if n > 0 && r.Some? then Pool(t, p.held + [Chunk(r.value, RoundUp8(n))]) else p
    case Release(i) =>
      if i < |p.held| then
        Pool(Put(p.free, p.held[i].addr, p.held[i].size), p.held[..i] + p.held[i + 1..])
      else p
  }

  function ServeAll(p: Pool, qs: seq<Request>): Pool
    requires forall i :: 0 <= i < |qs| ==> Sensible(qs[i])
    decreases |qs|
  {
    if qs == [] then p else ServeAll(Serve(p, qs[0]), qs[1..])
  }

  /** The free list is canonical, the blocks handed out are held and disjoint, and
      together they are exactly the bytes of the region. */
  ghost predicate Partition(p: Pool, region: Chunk) {
    Canonical(p.free) && HeldAll(p.free, p.held) &&
    forall b: int :: region.Has(b) <==> Free(p.free, b) || InSome(p.held, b)
  }

  /** A block that is no longer free, and nothing else, has been handed out. */
  lemma HandedOut(p: Pool, t: list, c: Chunk, region: Chunk)
    requires Partition(p, region) && c.size > 0
    requires Minus(p.free, t, c.addr, c.End()) && Held(t, c.addr, c.size)
    ensures Partition(Pool(t, p.held + [c]), region)
  {
    hide Canonical, Free, InSome, Run;
    HeldAfterTake(p.free, t, p.held, c);
    forall b: int
      ensures InSome(p.held + [c], b) <==> InSome(p.held, b) || c.Has(b)
    {
      InSomeAppend(p.held, c, b);
    }
    forall b: int | c.Has(b)
      ensures Free(p.free, b)
    {
      RunHas(p.free, c, b);
    }
  }

  lemma ServeAllocate(p: Pool, n: nat, region: Chunk)
    requires Partition(p, region)
    ensures Partition(Serve(p, Allocate(n)), region)
  {
    hide Take, Free, InSome, Run, HeldAll, Canonical, Held, Minus;
    var size := RoundUp8(n);
    var (r, t) := Take(p.free, size);
    if n > 0 && r.Some? {
      TakeMinus(p.free, size);
      TakePutInverse(p.free, size);
      HandedOut(p, t, Chunk(r.value, size), region);
    }
  }

  lemma ServeAligned(p: Pool, n: nat, align: nat, region: Chunk)
    requires Partition(p, region) && Sensible(AllocateAligned(n, align))
    ensures Partition(Serve(p, AllocateAligned(n, align)), region)
  {
    hide Take, Put, Free, InSome, Run, HeldAll, Canonical, Held, Minus, PowerOfTwo, RoundUp;
    if align < HEADER {
      ServeAllocate(p, n, region);
    } else if n > 0 && TakeAligned(p.free, n, align).0.Some? {
      TakeAlignedExact(p.free, n, align);
      var (r, t) := TakeAligned(p.free, n, align);
      assert RoundUp8(n) == n;
      HandedOut(p, t, Chunk(r.value, n), region);
    }
  }

  lemma RunHas(cs: list, c: Chunk, b: int)
    requires Run(cs, c.addr, c.size) && c.Has(b)
    ensures Free(cs, b)
  {
  }

  lemma InSomeAppend(bs: seq<Chunk>, c: Chunk, b: int)
    ensures InSome(bs + [c], b) <==> InSome(bs, b) || c.Has(b)
  {
    assert c in bs + [c];
  }

  lemma HeldAfterTake(cs: list, t: list, held: seq<Chunk>, c: Chunk)
    requires HeldAll(cs, held) && Held(t, c.addr, c.size) && Run(cs, c.addr, c.size)
    requires forall b: int :: Free(t, b) ==> Free(cs, b)
    ensures HeldAll(t, held + [c])
  {
    hide Free, Run;
    var h := held + [c];
    forall i | 0 <= i < |h|
      ensures Held(t, h[i].addr, h[i].size)
    {
      if i < |held| {
        assert Held(cs, held[i].addr, held[i].size);
      }
    }
    forall i | 0 <= i < |held|
      ensures Disjoint(held[i], c)
    {
      RunDisjoint(cs, held[i], c);
    }
  }

  lemma RunDisjoint(cs: list, h: Chunk, c: Chunk)
    requires Held(cs, h.addr, h.size) && Run(cs, c.addr, c.size) && c.size > 0
    ensures Disjoint(h, c)
  {
    var b := if h.addr < c.addr then c.addr else h.addr;
    assert h.Has(b) ==> !Free(cs, b);
    assert c.Has(b) ==> Free(cs, b);
  }

  lemma ServeRelease(p: Pool, i: nat, region: Chunk)
    requires Partition(p, region) && i < |p.held|
    ensures Partition(Serve(p, Release(i)), region)
  {
    hide Canonical, Put, Free, HeldAll, InSome, Held;
    var c := p.held[i];
    ReleaseHeld(p.free, p.held, i);
    PutBytes(p.free, c.addr, c.size);
    forall b: int
      ensures InSome(p.held, b) <==> InSome(p.held[..i] + p.held[i + 1..], b) || c.Has(b)
    {
      InSomeWithout(p.held, i, b);
    }
  }

  lemma ReleaseHeld(cs: list, bs: seq<Chunk>, i: nat)
    requires Canonical(cs) && HeldAll(cs, bs) && i < |bs|
    ensures Held(cs, bs[i].addr, bs[i].size)
    ensures var t := Put(cs, bs[i].addr, bs[i].size);
            Canonical(t) && HeldAll(t, bs[..i] + bs[i + 1..])
  {
    hide Canonical, Put, Free;
    var c := bs[i];
    PutCanonical(cs, c.addr, c.size);
    PutBytes(cs, c.addr, c.size);
    var h := bs[..i] + bs[i + 1..];
    forall k | 0 <= k < |h|
      ensures Held(Put(cs, c.addr, c.size), h[k].addr, h[k].size)
    {
      var o := if k < i then k else k + 1;
      assert h[k] == bs[o] && Held(cs, bs[o].addr, bs[o].size);
      assert Disjoint(bs[o], c) by {
        assert o < i ==> Disjoint(bs[o], bs[i]);
        assert i < o ==> Disjoint(bs[i], bs[o]);
      }
    }
  }

  lemma InSomeWithout(bs: seq<Chunk>, i: nat, b: int)
    requires i < |bs|
    ensures InSome(bs, b) <==> InSome(bs[..i] + bs[i + 1..], b) || bs[i].Has(b)
  {
    assert bs == bs[..i] + [bs[i]] + bs[i + 1..];
  }

  /** Conservation over every history: no byte is lost, none is handed out twice, and
      the free list is always the one canonical list of the bytes not held. */
  lemma {:induction false} HistoryKeepsPartition(p: Pool, qs: seq<Request>, region: Chunk)
    requires Partition(p, region) && forall i :: 0 <= i < |qs| ==> Sensible(qs[i])
    ensures Partition(ServeAll(p, qs), region)
    decreases |qs|
  {
    hide Partition, Serve, Sensible;
    if qs != [] {
      ServeKeepsPartition(p, qs[0], region);
      HistoryKeepsPartition(Serve(p, qs[0]), qs[1..], region);
    }
  }

  /** What initialisation leaves, one free chunk and nothing handed out, is a partition of
      that chunk, so every history from there keeps one. */
  lemma HistoryFromInit(c: Chunk, qs: seq<Request>)
    requires Proper(c) && forall i :: 0 <= i < |qs| ==> Sensible(qs[i])
    ensures Partition(Pool([c], []), c) && Partition(ServeAll(Pool([c], []), qs), c)
  {
    hide ServeAll, Sensible;
    forall b: int
      ensures c.Has(b) <==> Free([c], b) || InSome([], b)
    {
      if c.Has(b) {
        assert [c][0].Has(b);
      }
    }
    HistoryKeepsPartition(Pool([c], []), qs, c);
  }

  lemma ServeKeepsPartition(p: Pool, q: Request, region: Chunk)
    requires Partition(p, region) && Sensible(q)
    ensures Partition(Serve(p, q), region)
  {
    hide Partition, Take, TakeAligned, Put, Sensible;
    match q
    case Allocate(n) => ServeAllocate(p, n, region);
    case AllocateAligned(n, align) => ServeAligned(p, n, align, region);
    case Release(i) =>
      if i < |p.held| {
        ServeRelease(p, i, region);
      }
  }

  // --------------------------------------------------- aligned allocation

  lemma AlignMultiple(align: nat)
    requires PowerOfTwo(align) && align >= HEADER
    ensures align % HEADER == 0
  {
    assert PowerOfTwo(align / 2);
    assert PowerOfTwo(align / 2 / 2);
    assert PowerOfTwo(align / 2 / 2 / 2);
  }

  /** What aligned allocation computes: reserve more, free the front, free the tail. */
  function TakeAligned(cs: list, size: nat, align: nat): (Option<nat>, list)
    requires align > 0
  {
    if align < HEADER then Take(cs, RoundUp8(size))
    else
      var sizeAlign := size + align + HEADER * 2;
      var (r, t) := Take(cs, RoundUp8(sizeAlign));
      match r
      case None => (None, t)
      case Some(result) =>
        var resultAlign := RoundUp(result, align);
        var front := resultAlign - result;
        var final := if front != 0 && front < HEADER then resultAlign + align else resultAlign;
        var t1 := if front != 0 then Put(t, result, RoundUp8(front)) else t;
        (Some(final), Put(t1, final + size, RoundUp8(sizeAlign - front - size)))
  }

  /** Where the pieces of a reservation lie when align is a power of two. */
  lemma AlignedPieces(cs: list, size: nat, align: nat)
    requires Canonical(cs) && PowerOfTwo(align) && align >= HEADER
    requires Take(cs, RoundUp8(size + align + HEADER * 2)).0.Some?
    ensures var result := Take(cs, RoundUp8(size + align + HEADER * 2)).0.value;
            var ra := RoundUp(result, align);
            result <= ra < result + align && ra % align == 0 &&
            result >= HEADER && result % HEADER == 0 && ra % HEADER == 0 && align % HEADER == 0 &&
            !(ra - result != 0 && ra - result < HEADER)
  {
    hide Take, Canonical, PowerOfTwo, RoundUp, RoundUp8;
    var n := RoundUp8(size + align + HEADER * 2);
    TakeProper(cs, n);
    var result := Take(cs, n).0.value;
    RoundUpMultiple(result, align);
    AlignMultiple(align);
    MultipleOfMultiple(RoundUp(result, align), align, HEADER);
    WholePieces(result, RoundUp(result, align), 0, 0);
  }

  /** t is what is left of cs after the run lo..hi of free bytes was taken out. */
  ghost predicate Minus(cs: list, t: list, lo: nat, hi: nat) {
    lo <= hi && lo >= HEADER && lo % HEADER == 0 && hi % HEADER == 0 &&
    Canonical(cs) && Canonical(t) && Run(cs, lo, hi - lo) &&
    forall b: int :: Free(t, b) <==> Free(cs, b) && !(lo <= b < hi)
  }

  lemma TakeMinus(cs: list, n: nat)
    requires Canonical(cs) && n > 0 && n % HEADER == 0 && Take(cs, n).0.Some?
    ensures Minus(cs, Take(cs, n).1, Take(cs, n).0.value, Take(cs, n).0.value + n)
  {
    hide Take, Canonical, Free;
    TakeProper(cs, n);
    TakeCanonical(cs, n);
    TakeBytes(cs, n);
    TakeIsFirstFit(cs, n);
  }

  /** Giving back the first or the last n bytes of what was taken. */
  lemma PutFront(cs: list, t: list, lo: nat, hi: nat, n: nat)
    requires Minus(cs, t, lo, hi) && 0 < n <= hi - lo && n % HEADER == 0
    ensures Minus(cs, Put(t, lo, n), lo + n, hi)
  {
    hide Put, Canonical, Free;
    PutCanonical(t, lo, n);
    PutBytes(t, lo, n);
  }

  lemma PutBack(cs: list, t: list, lo: nat, hi: nat, n: nat)
    requires Minus(cs, t, lo, hi) && 0 < n <= hi - lo && n % HEADER == 0
    ensures Minus(cs, Put(t, hi - n, n), lo, hi - n)
  {
    hide Put, Canonical, Free;
    PutCanonical(t, hi - n, n);
    PutBytes(t, hi - n, n);
  }

  lemma PutWhole(cs: list, t: list, lo: nat, hi: nat)
    requires Minus(cs, t, lo, hi) && lo < hi
    ensures Held(t, lo, hi - lo) && Put(t, lo, hi - lo) == cs
  {
    hide Put, Canonical, Free;
    PutCanonical(t, lo, hi - lo);
    PutBytes(t, lo, hi - lo);
    CanonicalUnique(Put(t, lo, hi - lo), cs);
  }

  lemma Mod8(x: int, y: int)
    requires x % HEADER == 0
    ensures (x + y) % HEADER == y % HEADER && (y - x) % HEADER == y % HEADER
  {
    ShiftByMultiple(x, y, HEADER);
  }

  /** Everything is a multiple of the header size: a gap is empty or holds a header. */
  lemma WholePieces(result: nat, ra: nat, size: nat, n: nat)
    requires result % HEADER == 0 && ra % HEADER == 0 && size % HEADER == 0 && n % HEADER == 0
    requires result <= ra
    ensures (ra - result) % HEADER == 0 && (n - (ra - result) - size) % HEADER == 0
    ensures ra == result || ra - result >= HEADER
  {
    ShiftByMultiple(result, ra, HEADER);
    ShiftByMultiple(ra - result, n, HEADER);
    ShiftByMultiple(size, n - (ra - result), HEADER);
    DivMod(ra - result, HEADER);
  }

  lemma AlignedTakes(cs: list, size: nat, align: nat)
    requires align >= HEADER && (size + align + HEADER * 2) % HEADER == 0 && TakeAligned(cs, size, align).0.Some?
    ensures Take(cs, size + align + HEADER * 2).0.Some?
  {
    hide Take, Put, RoundUp;
  }

  /** For a rounded size, aligned allocation hands out an aligned block and in the end
      removes exactly that block from the free set; the branch that would move to the
      next aligned address is never taken; freeing the block restores the list. */
  lemma TakeAlignedExact(cs: list, size: nat, align: nat)
    requires Canonical(cs) && size > 0 && size % HEADER == 0 && PowerOfTwo(align) && align >= HEADER
    requires TakeAligned(cs, size, align).0.Some?
    ensures Take(cs, size + align + HEADER * 2).0.Some?
    ensures var (r, t) := TakeAligned(cs, size, align);
            r.value == RoundUp(Take(cs, size + align + HEADER * 2).0.value, align) &&
            r.value % align == 0 && Held(t, r.value, size) && Put(t, r.value, size) == cs &&
            Minus(cs, t, r.value, r.value + size)
  {
    hide Take, Canonical, Put, Free, RoundUp, RoundUp8, PowerOfTwo, Minus, Held;
    AlignMultiple(align);
    var n := size + align + HEADER * 2;
    Mod8(size, align + HEADER * 2);
    Mod8(align, HEADER * 2);
    AlignedTakes(cs, size, align);
    AlignedPieces(cs, size, align);
    var (r0, t0) := Take(cs, n);
    var result := r0.value;
    TakeMinus(cs, n);
    var ra := RoundUp(result, align);
    var front := ra - result;
    WholePieces(result, ra, size, n);
    var t1 := if front != 0 then Put(t0, result, front) else t0;
    if front != 0 {
      PutFront(cs, t0, result, result + n, front);
    }
    var tail := n - front - size;
    PutBack(cs, t1, ra, result + n, tail);
    PutWhole(cs, Put(t1, ra + size, tail), ra, ra + size);
    assert TakeAligned(cs, size, align) == (Some(ra), Put(t1, ra + size, tail));
  }

  /** Aligned allocation keeps the list canonical exactly for sizes that are multiples
      of 8: otherwise the tail it frees starts at an unaligned address. */
  lemma TakeAlignedCanonicalIff(cs: list, size: nat, align: nat)
    requires Canonical(cs) && size > 0 && PowerOfTwo(align) && align >= HEADER
    requires TakeAligned(cs, size, align).0.Some?
    ensures Canonical(TakeAligned(cs, size, align).1) <==> size % HEADER == 0
  {
    hide Take, Put, Free, RoundUp, PowerOfTwo, Canonical;
    if size % HEADER == 0 {
      TakeAlignedExact(cs, size, align);
    } else {
      AlignedPieces(cs, size, align);
      var n := RoundUp8(size + align + HEADER * 2);
      var (r0, t0) := Take(cs, n);
      TakeMinus(cs, n);
      var ra := RoundUp(r0.value, align);
      var front := ra - r0.value;
      Mod8(r0.value, ra);
      Mod8(ra, size);
      var t1 := if front != 0 then Put(t0, r0.value, front) else t0;
      if front != 0 {
        PutFront(cs, t0, r0.value, r0.value + n, front);
      }
      MisalignedPut(t1, ra + size, RoundUp8(size + align + HEADER * 2 - front - size));
    }
  }

  /** An unaligned block cannot coalesce with the aligned chunk before it, so its own
      address stays in the list. */
  lemma MisalignedPut(cs: list, a: nat, n: nat)
    requires Canonical(cs) && a % HEADER != 0
    ensures !Canonical(Put(cs, a, n))
  {
    var i := Before(cs, a);
    hide Before;
    var right := JoinNext(cs[i..], a, n);
    assert right[0].addr == a;
    if i > 0 {
      assert Proper(cs[i - 1]);
      assert cs[..i][|cs[..i]| - 1] == cs[i - 1];
    }
    assert Put(cs, a, n) == cs[..i] + right;
    assert !Proper((cs[..i] + right)[i]);
  }

  /** Four bytes aligned to 8 out of one free chunk leave a chunk at address 12. */
  lemma TakeAlignedExample()
    ensures !Canonical(TakeAligned([Chunk(8, 64)], 4, 8).1)
  {
    var cs := [Chunk(8, 64)];
    assert Fit(cs, 32) == 0;
    assert Take(cs, 32).0 == Some(8);
    hide Take, Put, RoundUp;
    assert PowerOfTwo(1) && PowerOfTwo(2) && PowerOfTwo(4) && PowerOfTwo(8);
    TakeAlignedCanonicalIff(cs, 4, 8);
  }

  /** An aligned part of what was taken out is held. */
  lemma MinusHeld(cs: list, t: list, lo: nat, hi: nat, a: nat, n: nat)
    requires Minus(cs, t, lo, hi) && lo <= a && a + n <= hi && n > 0 && a % HEADER == 0 && n % HEADER == 0
    ensures Held(t, a, n)
  {
    hide Free, Canonical;
  }

  /** The two frees inside an aligned allocation give back held blocks. */
  lemma AlignedFreesHeld(cs: list, size: nat, align: nat, n: nat, result: nat, ra: nat, front: nat,
                         t0: list, t1: list)
    requires Canonical(cs) && size > 0 && size % HEADER == 0 && PowerOfTwo(align) && align >= HEADER
    requires n == size + align + HEADER * 2 && Take(cs, n) == (Some(result), t0)
    requires ra == RoundUp(result, align) && front == ra - result
    requires t1 == if front != 0 then Put(t0, result, front) else t0
    ensures n % HEADER == 0 && front % HEADER == 0 && front < align && Canonical(t1)
    ensures front != 0 ==> front >= HEADER && Held(t0, result, front)
    ensures Held(t1, ra + size, n - front - size)
    ensures TakeAligned(cs, size, align) == (Some(ra), Put(t1, ra + size, n - front - size))
  {
    hide Take, Canonical, Put, Free, RoundUp, PowerOfTwo, Held, Minus;
    AlignMultiple(align);
    assert RoundUp8(n) == n;
    AlignedPieces(cs, size, align);
    TakeMinus(cs, n);
    Mod8(result, ra);
    Mod8(front, size);
    Mod8(front + size, n);
    Mod8(ra, size);
    var tail := n - front - size;
    assert front % HEADER == 0 && tail % HEADER == 0 && (ra + size) % HEADER == 0;
    if front != 0 {
      MinusHeld(cs, t0, result, result + n, result, front);
      PutFront(cs, t0, result, result + n, front);
    }
    MinusHeld(cs, t1, ra, result + n, ra + size, tail);
    MinusCanonical(cs, t1, ra, result + n);
    TakeAlignedIs(cs, size, align, n, result, ra, front, t0, t1);
  }

  lemma TakeAlignedIs(cs: list, size: nat, align: nat, n: nat, result: nat, ra: nat, front: nat, t0: list, t1: list)
    requires align >= HEADER && n == size + align + HEADER * 2 && n % HEADER == 0
    requires Take(cs, n) == (Some(result), t0) && ra == RoundUp(result, align) && front == ra - result
    requires front % HEADER == 0 && size % HEADER == 0
    requires t1 == if front != 0 then Put(t0, result, front) else t0
    ensures TakeAligned(cs, size, align) == (Some(ra), Put(t1, ra + size, n - front - size))
  {
    hide Take, Put, RoundUp;
    assert RoundUp8(n) == n && RoundUp8(front) == front;
    Mod8(front, size);
    Mod8(front + size, n);
    assert RoundUp8(n - front - size) == n - front - size;
  }

  lemma MinusCanonical(cs: list, t: list, lo: nat, hi: nat)
    requires Minus(cs, t, lo, hi)
    ensures Canonical(t)
  {
    hide Canonical, Free;
  }
}
