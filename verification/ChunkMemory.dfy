/** Chunk headers in memory and counters per bank (sw/pulp-runtime/kernel/alloc.c). A
    header is 8 bytes, so memory has one slot per aligned granule: address a is slot
    a / 8 and address 0 is NULL. */
module ChunkMemory {
  import opened Words
  import opened FreeList
  import opened Divisibility
  import opened AllocLaws
  import opened Banks

  datatype Header = Header(size: int, next: nat)

  /** One call of the power controller: the banks named and the direction. */
  datatype PowerEvent = PowerEvent(banks: set<nat>, on: bool)

  const INT_MAX := 0x7fff_ffff

  /** The address of chunk i, or NULL past the end. */
  function AddrAt(cs: list, i: nat): nat {
    if i < |cs| then cs[i].addr else 0
  }

  function Slot(a: nat): nat {
    a / HEADER
  }

  /** The header at address a. */
  function Load(mem: seq<Header>, a: nat): Header {
    if Slot(a) < |mem| then mem[Slot(a)] else Header(0, 0)
  }

  /** The headers in mem are those of the list, linked in order. */
  ghost predicate Linked(mem: seq<Header>, cs: list) {
    forall i :: 0 <= i < |cs| ==> LinkAt(mem, cs, i)
  }

  ghost predicate LinkAt(mem: seq<Header>, cs: list, i: nat)
    requires i < |cs|
  {
    Slot(cs[i].addr) < |mem| && Load(mem, cs[i].addr) == Header(cs[i].size, AddrAt(cs, i + 1))
  }

  ghost predicate Within(cs: list, bytes: int) {
    forall i :: 0 <= i < |cs| ==> cs[i].End() <= bytes
  }

  ghost predicate AtLeast(cs: list, lo: nat) {
    forall i :: 0 <= i < |cs| ==> lo <= cs[i].addr
  }

  lemma SlotsDistinct(a: nat, b: nat)
    requires a % HEADER == 0 && b % HEADER == 0 && a != b
    ensures Slot(a) != Slot(b)
  {
  }

  lemma SlotInside(a: nat, n: nat, len: nat)
    requires a % HEADER == 0 && n > 0 && a + n <= HEADER * len
    ensures Slot(a) < len
  {
  }

  lemma NextOf(cs: list, i: nat)
    requires Canonical(cs) && i < |cs|
    ensures AddrAt(cs, i + 1) == 0 <==> i + 1 == |cs|
    ensures cs[i].addr > 0 && cs[i].addr % HEADER == 0 && cs[i].size > 0 && cs[i].size % HEADER == 0
  {
    assert Proper(cs[i]);
    assert i + 1 < |cs| ==> Proper(cs[i + 1]);
  }

  // ------------------------------------------------------------ list edits

  /** Writing the slots of a shrunk list: chunk i gives way to its rest, or to
      nothing, and the link to it follows. */
  lemma ShrinkLinked(mem: seq<Header>, now: seq<Header>, cs: list, i: nat, n: nat)
    requires Canonical(cs) && Linked(mem, cs) && i < |cs| && 0 < n <= cs[i].size && n % HEADER == 0
    requires |now| == |mem|
    requires cs[i].size > n ==>
               Slot(cs[i].addr + n) < |now| &&
               Load(now, cs[i].addr + n) == Header(cs[i].size - n, AddrAt(cs, i + 1))
    requires i > 0 ==>
               Load(now, cs[i - 1].addr) ==
               Header(cs[i - 1].size, if cs[i].size > n then cs[i].addr + n else AddrAt(cs, i + 1))
    requires forall k :: 0 <= k < |cs| && k != i && k != i - 1 ==> Load(now, cs[k].addr) == Load(mem, cs[k].addr)
    ensures Linked(now, Shrink(cs, i, n))
    ensures AddrAt(Shrink(cs, i, n), 0) ==
            if i > 0 then AddrAt(cs, 0) else if cs[i].size > n then cs[i].addr + n else AddrAt(cs, i + 1)
  {
    hide Canonical, Slot, Load;
    var t := Shrink(cs, i, n);
    var skip := if cs[i].size == n then 1 else 0;
    forall k | 0 <= k < |t|
      ensures LinkAt(now, t, k)
    {
      if k < i {
        assert t[k] == cs[k];
        assert LinkAt(mem, cs, k);
        assert k + 1 < i ==> t[k + 1] == cs[k + 1];
        assert k + 1 == i && k + 1 < |t| && skip == 0 ==> t[k + 1] == Chunk(cs[i].addr + n, cs[i].size - n);
        assert k + 1 == i && k + 1 < |t| && skip == 1 ==> t[k + 1] == cs[k + 2];
      } else if k == i && skip == 0 {
        assert t[k] == Chunk(cs[i].addr + n, cs[i].size - n);
        assert k + 1 < |t| ==> t[k + 1] == cs[k + 1];
      } else {
        assert t[k] == cs[k + skip];
        assert LinkAt(mem, cs, k + skip);
        assert k + 1 < |t| ==> t[k + 1] == cs[k + 1 + skip];
      }
    }
    assert |t| > 0 && i > 0 ==> t[0] == cs[0];
    assert |t| > 0 && i == 0 ==> t[0] == if skip == 1 then cs[1] else Chunk(cs[0].addr + n, cs[0].size - n);
  }

  lemma ShrinkWithin(cs: list, i: nat, n: nat, bytes: int)
    requires Within(cs, bytes) && i < |cs| && n <= cs[i].size
    ensures Within(Shrink(cs, i, n), bytes)
  {
    var t := Shrink(cs, i, n);
    if cs[i].size == n {
      assert forall k :: 0 <= k < |t| ==> t[k] == if k < i then cs[k] else cs[k + 1];
    } else {
      assert forall k :: 0 <= k < |t| && k != i ==> t[k] == cs[k];
    }
  }

  /** The same for a released block: its own slot and the slot before it, one of
      which ends up unused when they join. */
  lemma PutLinked(mem: seq<Header>, now: seq<Header>, cs: list, a: nat, n: nat)
    requires Canonical(cs) && Linked(mem, cs) && Held(cs, a, n) && |now| == |mem| && Slot(a) < |now|
    requires var i, next := Before(cs, a), NextAdjacent(cs, a, n);
             var size := if next then n + cs[i].size else n;
             var link := if next then AddrAt(cs, i + 1) else AddrAt(cs, i);
             (if PrevAdjacent(cs, a) then Load(now, cs[i - 1].addr) == Header(cs[i - 1].size + size, link)
              else Load(now, a) == Header(size, link) &&
                   (i > 0 ==> Load(now, cs[i - 1].addr) == Header(cs[i - 1].size, a)))
    requires var i := Before(cs, a);
             forall k :: 0 <= k < |cs| && k != i - 1 ==> Load(now, cs[k].addr) == Load(mem, cs[k].addr)
    ensures Linked(now, Put(cs, a, n))
    ensures AddrAt(Put(cs, a, n), 0) == if Before(cs, a) > 0 then AddrAt(cs, 0) else a
  {
    hide Canonical, Slot, Before, Held, Load, Put;
    var i: int := Before(cs, a);
    var t := Put(cs, a, n);
    var skip := if NextAdjacent(cs, a, n) then 1 else 0;
    if PrevAdjacent(cs, a) {
      PutShapeJoined(cs, a, n);
    } else {
      PutShapeApart(cs, a, n);
    }
    forall k | 0 <= k < |t|
      ensures LinkAt(now, t, k)
    {
      if k < i - 1 {
        assert LinkAt(mem, cs, k);
        LinkMoves(mem, now, cs, k, t, k);
      } else if PrevAdjacent(cs, a) {
        if k == i - 1 {
          assert LinkAt(mem, cs, k);
          assert AddrAt(t, i) == AddrAt(cs, i + skip);
          LinkFrom(now, t, k);
        } else {
          assert LinkAt(mem, cs, k + skip);
          LinkMoves(mem, now, cs, k + skip, t, k);
        }
      } else if k == i {
        assert AddrAt(t, i + 1) == AddrAt(cs, i + skip);
        LinkFrom(now, t, k);
      } else if k == i - 1 {
        assert LinkAt(mem, cs, k);
        assert AddrAt(t, i) == a;
        LinkFrom(now, t, k);
      } else {
        assert LinkAt(mem, cs, k - 1 + skip);
        LinkMoves(mem, now, cs, k - 1 + skip, t, k);
      }
    }
  }

  /** An unchanged chunk with an unchanged successor is linked as before. */
  lemma LinkMoves(mem: seq<Header>, now: seq<Header>, cs: list, i: nat, t: list, k: nat)
    requires i < |cs| && k < |t| && |now| == |mem| && LinkAt(mem, cs, i)
    requires Slot(cs[i].addr) < |mem| ==> Load(now, cs[i].addr) == Load(mem, cs[i].addr)
    requires t[k] == cs[i] && AddrAt(t, k + 1) == AddrAt(cs, i + 1)
    ensures LinkAt(now, t, k)
  {
  }

  lemma LinkFrom(now: seq<Header>, t: list, k: nat)
    requires k < |t| && Slot(t[k].addr) < |now| && Load(now, t[k].addr) == Header(t[k].size, AddrAt(t, k + 1))
    ensures LinkAt(now, t, k)
  {
  }

  /** What becomes of the chunks from the block on. */
  lemma RightShape(cs: list, a: nat, n: nat)
    ensures var i, skip := Before(cs, a), if NextAdjacent(cs, a, n) then 1 else 0;
            var right := JoinNext(cs[i..], a, n);
            |right| == 1 + |cs| - i - skip &&
            right[0] == Chunk(a, if NextAdjacent(cs, a, n) then n + cs[i].size else n) &&
            forall k :: 1 <= k < |right| ==> right[k] == cs[i + k - 1 + skip]
  {
    hide Before, JoinNext;
    JoinNextShape(cs[Before(cs, a)..], a, n);
  }

  /** The chunks of a list after a release, one by one: when the block joins the chunk
      before it, and when it does not. */
  lemma PutShapeJoined(cs: list, a: nat, n: nat)
    requires PrevAdjacent(cs, a)
    ensures var i, t, skip := Before(cs, a), Put(cs, a, n), if NextAdjacent(cs, a, n) then 1 else 0;
            var size := if NextAdjacent(cs, a, n) then n + cs[i].size else n;
            |t| == |cs| - skip && t[i - 1] == Chunk(cs[i - 1].addr, cs[i - 1].size + size) &&
            (forall k :: 0 <= k < i - 1 ==> t[k] == cs[k]) &&
            (forall k :: i <= k < |t| ==> t[k] == cs[k + skip])
  {
    hide Before, JoinNext, JoinPrev, NextAdjacent;
    var i := Before(cs, a);
    var left, right := cs[..i], JoinNext(cs[i..], a, n);
    RightShape(cs, a, n);
    JoinNextNonempty(cs[i..], a, n);
    assert left[|left| - 1] == cs[i - 1];
    JoinPrevShape(left, right);
    var t := Put(cs, a, n);
    forall k | i <= k < |t|
      ensures t[k] == cs[k + if NextAdjacent(cs, a, n) then 1 else 0]
    {
      assert t[k] == right[k - i + 1];
    }
  }

  lemma PutShapeApart(cs: list, a: nat, n: nat)
    requires !PrevAdjacent(cs, a)
    ensures var i, t, skip := Before(cs, a), Put(cs, a, n), if NextAdjacent(cs, a, n) then 1 else 0;
            |t| == |cs| + 1 - skip &&
            t[i] == Chunk(a, if NextAdjacent(cs, a, n) then n + cs[i].size else n) &&
            (forall k :: 0 <= k < i ==> t[k] == cs[k]) &&
            (forall k :: i < k < |t| ==> t[k] == cs[k - 1 + skip])
  {
    hide Before, JoinNext, JoinPrev, NextAdjacent;
    var i := Before(cs, a);
    var left, right := cs[..i], JoinNext(cs[i..], a, n);
    RightShape(cs, a, n);
    JoinNextNonempty(cs[i..], a, n);
    if i > 0 {
      assert left[|left| - 1] == cs[i - 1];
    }
    JoinPrevShape(left, right);
    var t := Put(cs, a, n);
    assert t[i] == right[0];
    forall k | i < k < |t|
      ensures t[k] == cs[k - 1 + if NextAdjacent(cs, a, n) then 1 else 0]
    {
      assert t[k] == right[k - i];
    }
  }

  lemma JoinNextShape(cs: list, a: nat, n: nat)
    ensures var t := JoinNext(cs, a, n);
            if cs != [] && a + n == cs[0].addr then
              |t| == |cs| && t[0] == Chunk(a, n + cs[0].size) && forall k :: 1 <= k < |t| ==> t[k] == cs[k]
            else |t| == |cs| + 1 && t[0] == Chunk(a, n) && forall k :: 1 <= k < |t| ==> t[k] == cs[k - 1]
  {
  }

  lemma JoinPrevShape(left: list, right: list)
    requires right != []
    ensures var t, m := JoinPrev(left, right), |left|;
            if left != [] && left[m - 1].End() == right[0].addr then
              |t| == m + |right| - 1 && t[m - 1] == Chunk(left[m - 1].addr, left[m - 1].size + right[0].size) &&
              (forall k :: 0 <= k < m - 1 ==> t[k] == left[k]) &&
              (forall k :: m <= k < |t| ==> t[k] == right[k - m + 1])
            else
              |t| == m + |right| && (forall k :: 0 <= k < m ==> t[k] == left[k]) &&
              (forall k :: m <= k < |t| ==> t[k] == right[k - m])
  {
  }

  lemma PutWithin(cs: list, a: nat, n: nat, bytes: int)
    requires Within(cs, bytes) && a + n <= bytes
    ensures Within(Put(cs, a, n), bytes)
  {
    hide Before;
    var i := Before(cs, a);
    var right := JoinNext(cs[i..], a, n);
    assert Within(cs[..i], bytes) && Within(cs[i..], bytes);
    assert right[0].End() <= bytes;
    assert forall k :: 1 <= k < |right| ==> right[k] in cs[i..];
    JoinPrevWithin(cs[..i], right, bytes);
  }

  lemma JoinPrevWithin(left: list, right: list, bytes: int)
    requires Within(left, bytes) && Within(right, bytes) && right != []
    ensures Within(JoinPrev(left, right), bytes)
  {
    var t, m := JoinPrev(left, right), |left|;
    if left != [] && left[m - 1].End() == right[0].addr {
      assert forall k :: 0 <= k < m - 1 ==> t[k] == left[k];
      assert forall k :: m <= k < |t| ==> t[k] == right[k - m + 1];
    }
  }

  // ------------------------------------------------------------- the banks

  /** Bank b is first + b * size up to the next bank. */
  function BankLo(first: int, size: nat, b: int): int {
    first + size * b
  }

  lemma BankStep(first: int, size: nat, b: int)
    ensures BankLo(first, size, b + 1) == BankLo(first, size, b) + size
  {
    Distribute(size, b, -1);
  }

  lemma BankOrder(first: int, size: nat, b: int, c: int)
    requires b <= c
    ensures BankLo(first, size, b) <= BankLo(first, size, c)
  {
    Grow(size, b, c);
  }

  /** A counter after `factor` times n bytes were accounted, in 32 bits. */
  function Counted(count: word, factor: int, n: nat): word {
    ToWord(count + (if factor == -1 then 0 - n else n))
  }

  /** A second accounting adds to the first. */
  lemma CountedTwice(count: word, factor: int, m: nat, n: nat)
    ensures Counted(Counted(count, factor, m), factor, n) == Counted(count, factor, m + n)
  {
    hide ToWord;
    if factor == -1 {
      ToWordAdd(count - m, 0 - n);
    } else {
      ToWordAdd(count + m, n);
    }
  }

  /** The banks a call names: those touched whose counter was full before memory was
      taken, or is full afterwards. */
  ghost function Named(was: seq<word>, now: seq<word>, factor: int, full: nat,
                       x: int, y: int, first: int): set<nat>
    requires |was| == |now|
  {
    set b: nat | b < |was| &&
      Overlap(x, y, BankLo(first, full, b), BankLo(first, full, b + 1)) > 0 &&
      ((factor == -1 && was[b] == full) || now[b] == full)
  }

  /** While counters stay between 0 and the bank size, the banks named are exactly
      those whose counter reached or left the bank size. */
  lemma NamedReachOrLeave(was: seq<word>, now: seq<word>, factor: int, full: nat, x: int, y: int, first: int)
    requires |was| == |now| && factor in {1, -1} && 0 < full < TWO31
    requires forall b :: 0 <= b < |was| ==> was[b] <= full && now[b] <= full
    requires forall b :: 0 <= b < |was| ==>
               now[b] == Counted(was[b], factor, Overlap(x, y, BankLo(first, full, b), BankLo(first, full, b + 1)))
    ensures forall b: nat :: b in Named(was, now, factor, full, x, y, first) <==>
              b < |was| && ((was[b] == full) != (now[b] == full))
  {
    hide Overlap, BankLo, Counted;
    forall b: nat | b < |was|
      ensures b in Named(was, now, factor, full, x, y, first) <==> ((was[b] == full) != (now[b] == full))
    {
      var n := Overlap(x, y, BankLo(first, full, b), BankLo(first, full, b + 1));
      BankStep(first, full, b);
      OverlapBound(x, y, BankLo(first, full, b), BankLo(first, full, b + 1));
      ReachOrLeave(was[b], now[b], factor, full, n);
    }
  }

  lemma ReachOrLeave(was: word, now: word, factor: int, full: nat, n: nat)
    requires factor in {1, -1} && 0 < full < TWO31 && was <= full && now <= full && n <= full
    requires now == Counted(was, factor, n)
    ensures n > 0 && ((factor == -1 && was == full) || now == full) <==> ((was == full) != (now == full))
  {
  }

  lemma OverlapBound(x: int, y: int, lo: int, hi: int)
    ensures lo <= hi ==> Overlap(x, y, lo, hi) <= hi - lo
  {
  }

  /** The banks a stretch of memory starts and does not start in. */
  lemma FirstBank(first: int, size: nat, x: int)
    requires size > 0 && x >= first
    ensures var k := (x - first) / size;
            k >= 0 && BankLo(first, size, k) <= x < BankLo(first, size, k + 1)
  {
    DivMod(x - first, size);
    var k := (x - first) / size;
    BankStep(first, size, k);
    if k < 0 {
      Grow(size, k, -1);
    }
  }

  lemma BankInRange(first: int, size: nat, b: int, nb: nat, x: int)
    requires BankLo(first, size, b) <= x < BankLo(first, size, nb)
    ensures b < nb
  {
    if b >= nb {
      Grow(size, nb, b);
    }
  }

  /** One turn of the accounting walk: from x, which is the start of the stretch or of
      bank b, to the end of the bank or of the stretch. */
  lemma BankSlice(first: int, size: nat, b: nat, start: int, x: int, end: int)
    requires BankLo(first, size, b) <= x < BankLo(first, size, b + 1) && start <= x < end
    requires x == start || x == BankLo(first, size, b)
    ensures var lo, hi := BankLo(first, size, b), BankLo(first, size, b + 1);
            Overlap(start, end, lo, hi) == (if end < hi then end else hi) - x > 0
  {
  }

  /** Banks before the start and from the end on are not touched. */
  lemma BankOutside(first: int, size: nat, b: nat, start: int, end: int)
    requires end <= BankLo(first, size, b) || BankLo(first, size, b + 1) <= start
    ensures Overlap(start, end, BankLo(first, size, b), BankLo(first, size, b + 1)) == 0
  {
  }

  lemma CountedNothing(count: word, factor: int)
    ensures Counted(count, factor, 0) == count
  {
  }

  lemma BankOffset(first: int, size: nat, x: int)
    requires size > 0 && x >= first
    ensures first + (x - first) / size * size == BankLo(first, size, (x - first) / size)
  {
  }

  /** What a walk over the banks b0 up to b1 under the stretch x..y has done. */
  ghost predicate Walked(was: seq<word>, now: seq<word>, factor: int, full: nat, x: int, y: int, first: int,
                         b0: nat, b1: nat, ctrl: set<nat>) {
    |was| == |now| &&
    (forall b :: 0 <= b < |was| && !(b0 <= b < b1) ==> now[b] == was[b]) &&
    (forall b :: b0 <= b < b1 && b < |was| ==>
      now[b] == Counted(was[b], factor, Overlap(x, y, BankLo(first, full, b), BankLo(first, full, b + 1)))) &&
    (forall b: nat :: b in ctrl ==> b0 <= b < b1 && b < |was|) &&
    (forall b: nat :: b0 <= b < b1 && b < |was| ==>
      Overlap(x, y, BankLo(first, full, b), BankLo(first, full, b + 1)) > 0 &&
      (b in ctrl <==> (factor == -1 && was[b] == full) || now[b] == full))
  }

  lemma WalkStart(was: seq<word>, factor: int, full: nat, x: int, y: int, first: int, b0: nat)
    ensures Walked(was, was, factor, full, x, y, first, b0, b0, {})
  {
    hide Overlap, BankLo, Counted;
  }

  lemma WalkStep(was: seq<word>, now: seq<word>, factor: int, full: nat, x: int, y: int, first: int,
                 b0: nat, b: nat, ctrl: set<nat>, n: nat)
    requires Walked(was, now, factor, full, x, y, first, b0, b, ctrl) && b0 <= b < |was|
    requires n > 0 && n == Overlap(x, y, BankLo(first, full, b), BankLo(first, full, b + 1))
    ensures var count := Counted(now[b], factor, n);
            Walked(was, now[b := count], factor, full, x, y, first, b0, b + 1,
                   if (factor == -1 && now[b] == full) || count == full then ctrl + {b} else ctrl)
  {
    hide Overlap, BankLo, Counted;
    assert now[b] == was[b] && b !in ctrl;
    var later := now[b := Counted(now[b], factor, n)];
    assert forall k :: 0 <= k < |was| && k != b ==> later[k] == now[k];
  }

  /** When the walk over banks b0 up to b1 has covered the stretch, every counter and
      the set of banks named are as they should be. */
  lemma AccountDone(was: seq<word>, now: seq<word>, factor: int, full: nat, x: int, y: int, first: int,
                    b0: nat, b1: nat, ctrl: set<nat>)
    requires Walked(was, now, factor, full, x, y, first, b0, b1, ctrl) && x <= y && b0 <= b1
    requires BankLo(first, full, b0) <= x && (x == y || y <= BankLo(first, full, b1))
    ensures forall b :: 0 <= b < |was| ==>
      now[b] == Counted(was[b], factor, Overlap(x, y, BankLo(first, full, b), BankLo(first, full, b + 1)))
    ensures ctrl == Named(was, now, factor, full, x, y, first)
  {
    hide Overlap, BankLo, Counted;
    forall b: nat | b < |was| && !(b0 <= b < b1)
      ensures Overlap(x, y, BankLo(first, full, b), BankLo(first, full, b + 1)) == 0
      ensures now[b] == Counted(was[b], factor, 0)
    {
      if b < b0 {
        BankOrder(first, full, b + 1, b0);
      } else {
        BankOrder(first, full, b1, b);
      }
      if x == y {
        OverlapEmpty(x, BankLo(first, full, b), BankLo(first, full, b + 1));
      } else {
        BankOutside(first, full, b, x, y);
      }
      CountedNothing(was[b], factor);
    }
  }

  lemma OverlapEmpty(x: int, lo: int, hi: int)
    ensures Overlap(x, x, lo, hi) == 0
  {
  }

  // ------------------------------------------------ facts for the methods

  lemma ChunkLoad(mem: seq<Header>, cs: list, i: nat)
    requires Canonical(cs) && Linked(mem, cs) && i <= |cs|
    ensures AddrAt(cs, i) == 0 <==> i == |cs|
    ensures i < |cs| ==> Slot(cs[i].addr) < |mem| && mem[Slot(cs[i].addr)] == Header(cs[i].size, AddrAt(cs, i + 1))
  {
    if i < |cs| {
      assert Proper(cs[i]);
      assert LinkAt(mem, cs, i);
    }
  }

  lemma {:induction false} FitIs(cs: list, n: nat, i: nat)
    requires i <= |cs| && (forall k :: 0 <= k < i ==> cs[k].size < n) && (i < |cs| ==> cs[i].size >= n)
    ensures Fit(cs, n) == i
    decreases |cs|
  {
    if i > 0 {
      FitIs(cs[1..], n, i - 1);
    }
  }

  lemma ShrinkAtLeast(cs: list, i: nat, n: nat, lo: nat)
    requires AtLeast(cs, lo) && i < |cs| && n <= cs[i].size
    ensures AtLeast(Shrink(cs, i, n), lo)
  {
    var t := Shrink(cs, i, n);
    if cs[i].size == n {
      assert forall k :: 0 <= k < |t| ==> t[k] == if k < i then cs[k] else cs[k + 1];
    } else {
      assert forall k :: 0 <= k < |t| && k != i ==> t[k] == cs[k];
    }
  }

  lemma PutAtLeast(cs: list, a: nat, n: nat, lo: nat)
    requires AtLeast(cs, lo) && lo <= a
    ensures AtLeast(Put(cs, a, n), lo)
  {
    hide Before;
    var i, t := Before(cs, a), Put(cs, a, n);
    if PrevAdjacent(cs, a) {
      PutShapeJoined(cs, a, n);
    } else {
      PutShapeApart(cs, a, n);
    }
  }

  /** The slots of different chunks differ, and so do the slots of a chunk and of an
      aligned address outside all other chunks. */
  lemma ChunkSlots(cs: list, i: nat, a: nat)
    requires Canonical(cs) && i < |cs| && a % HEADER == 0 && a != cs[i].addr
    ensures Slot(cs[i].addr) != Slot(a)
  {
    assert Proper(cs[i]);
    SlotsDistinct(cs[i].addr, a);
  }

  /** The counter of a bank after the accounting of an allocation. */
  lemma TakeFollows(cs: list, n: nat, lo: int, hi: int, count: word)
    requires Canonical(cs) && n > 0 && n % HEADER == 0 && Fit(cs, n) < |cs|
    ensures var c, t := cs[Fit(cs, n)], Take(cs, n).1;
            var once := Counted(count, -1, Overlap(c.addr + HEADER, c.addr + HEADER + (n - HEADER), lo, hi));
            ToWord(count + Count(Payload(t), lo, hi) - Count(Payload(cs), lo, hi)) ==
            if c.size == n then once
            else Counted(once, -1, Overlap(c.addr + n, c.addr + n + HEADER, lo, hi))
  {
    hide Take, Fit, Overlap, Count, Payload, Canonical;
    var c := cs[Fit(cs, n)];
    TakeCounts(cs, n, lo, hi);
    var x, y := (c.addr + HEADER, c.addr + n), (c.addr + n, c.addr + n + HEADER);
    SumOne(x, lo, hi);
    SumTwo(x, y, lo, hi);
    CountedTwice(count, -1, Overlap(x.0, x.1, lo, hi), Overlap(y.0, y.1, lo, hi));
  }

  /** The counter of a bank after the accounting of a free: first the header of the
      chunk in front of which the block is joined, then the block. */
  lemma PutFollows(cs: list, a: nat, n: nat, lo: int, hi: int, count: word)
    requires Canonical(cs) && Held(cs, a, n)
    ensures var once := if NextAdjacent(cs, a, n) then Counted(count, 1, Overlap(a + n, a + n + HEADER, lo, hi))
                        else count;
            var x := if PrevAdjacent(cs, a) then a else a + HEADER;
            ToWord(count + Count(Payload(Put(cs, a, n)), lo, hi) - Count(Payload(cs), lo, hi)) ==
            Counted(once, 1, Overlap(x, x + (a + n - x), lo, hi))
  {
    hide Put, Overlap, Count, Payload, Canonical, Held, NextAdjacent, PrevAdjacent;
    PutCounts(cs, a, n, lo, hi);
    var x := (if PrevAdjacent(cs, a) then a else a + HEADER, a + n);
    var y := (a + n, a + n + HEADER);
    SumOne(x, lo, hi);
    SumTwo(y, x, lo, hi);
    assert [y] + [x] == [y, x];
    assert [] + [x] == [x];
    CountedTwice(count, 1, Overlap(y.0, y.1, lo, hi), Overlap(x.0, x.1, lo, hi));
  }

  /** Memory with the link that leads to chunk i redirected. */
  function Redirect(mem: seq<Header>, prev: nat, next: nat): seq<Header> {
    if prev != 0 && Slot(prev) < |mem| then mem[Slot(prev) := mem[Slot(prev)].(next := next)] else mem
  }

  function Prev(cs: list, i: nat): nat {
    if 0 < i <= |cs| then cs[i - 1].addr else 0
  }

  lemma PrevFacts(mem: seq<Header>, cs: list, i: nat)
    requires Canonical(cs) && Linked(mem, cs) && i <= |cs|
    ensures Prev(cs, i) == 0 <==> i == 0
    ensures i > 0 ==> Slot(Prev(cs, i)) < |mem| &&
                      mem[Slot(Prev(cs, i))] == Header(cs[i - 1].size, AddrAt(cs, i))
    ensures forall k :: 0 <= k < |cs| && k != i - 1 && i > 0 ==> Slot(cs[k].addr) != Slot(Prev(cs, i))
  {
    if i > 0 {
      assert Proper(cs[i - 1]);
      assert LinkAt(mem, cs, i - 1);
      forall k | 0 <= k < |cs| && k != i - 1
        ensures Slot(cs[k].addr) != Slot(Prev(cs, i))
      {
        OtherAddress(cs, k, i - 1);
        ChunkSlots(cs, k, Prev(cs, i));
      }
    }
  }

  lemma OtherAddress(cs: list, i: nat, j: nat)
    requires Canonical(cs) && i < |cs| && j < |cs| && i != j
    ensures cs[i].addr != cs[j].addr
    ensures cs[i].addr < cs[j].addr ==> cs[i].End() < cs[j].addr
  {
    Ascending(cs, i, j);
    Ascending(cs, j, i);
  }

  /** The address of the rest of chunk i is in memory and is no chunk's address. */
  lemma RestFacts(cs: list, i: nat, n: nat, len: nat)
    requires Canonical(cs) && Within(cs, HEADER * len) && i < |cs|
    requires 0 < n < cs[i].size && n % HEADER == 0
    ensures Slot(cs[i].addr + n) < len
    ensures forall k :: 0 <= k < |cs| ==> Slot(cs[k].addr) != Slot(cs[i].addr + n)
  {
    assert Proper(cs[i]);
    Mod8(cs[i].addr, n);
    SlotInside(cs[i].addr + n, 1, len);
    forall k | 0 <= k < |cs|
      ensures Slot(cs[k].addr) != Slot(cs[i].addr + n)
    {
      if k != i {
        OtherAddress(cs, i, k);
      }
      ChunkSlots(cs, k, cs[i].addr + n);
    }
  }

  /** Allocation's writes, whole chunk and part of one. */
  lemma TakeWrites(mem: seq<Header>, cs: list, i: nat, n: nat)
    requires Canonical(cs) && Linked(mem, cs) && Within(cs, HEADER * |mem|) && i < |cs|
    requires 0 < n <= cs[i].size && n % HEADER == 0
    ensures cs[i].size == n ==> Linked(Redirect(mem, Prev(cs, i), AddrAt(cs, i + 1)), Shrink(cs, i, n))
    ensures cs[i].size > n ==> Slot(cs[i].addr + n) < |mem|
    ensures cs[i].size > n ==>
              Linked(Redirect(mem[Slot(cs[i].addr + n) := Header(cs[i].size - n, AddrAt(cs, i + 1))],
                              Prev(cs, i), cs[i].addr + n), Shrink(cs, i, n))
    ensures AddrAt(Shrink(cs, i, n), 0) ==
            if i > 0 then AddrAt(cs, 0) else if cs[i].size > n then cs[i].addr + n else AddrAt(cs, i + 1)
  {
    hide Canonical, Linked, Slot;
    PrevFacts(mem, cs, i);
    if cs[i].size == n {
      ShrinkLinked(mem, Redirect(mem, Prev(cs, i), AddrAt(cs, i + 1)), cs, i, n);
    } else {
      RestFacts(cs, i, n, |mem|);
      var rest := mem[Slot(cs[i].addr + n) := Header(cs[i].size - n, AddrAt(cs, i + 1))];
      if i > 0 {
        RestNotPrev(cs, i, n);
      }
      ShrinkLinked(mem, Redirect(rest, Prev(cs, i), cs[i].addr + n), cs, i, n);
    }
  }

  lemma RestNotPrev(cs: list, i: nat, n: nat)
    requires Canonical(cs) && 0 < i < |cs| && 0 < n < cs[i].size && n % HEADER == 0
    ensures Slot(cs[i].addr + n) != Slot(Prev(cs, i))
  {
    assert Proper(cs[i]) && Proper(cs[i - 1]);
    Mod8(cs[i].addr, n);
    Ascending(cs, i - 1, i);
    SlotsDistinct(cs[i].addr + n, cs[i - 1].addr);
  }

  lemma BoundsOf(cs: list, i: nat, lo: nat, hi: int)
    requires AtLeast(cs, lo) && Within(cs, hi) && i < |cs|
    ensures lo <= cs[i].addr && cs[i].End() <= hi
  {
  }

  lemma RestHasHeader(cs: list, i: nat, n: nat)
    requires Canonical(cs) && i < |cs| && n < cs[i].size && n % HEADER == 0
    ensures n + HEADER <= cs[i].size
  {
    assert Proper(cs[i]);
  }

  /** The writes of a release: the block's own header, then the link to it or the
      joining with the chunk before. */
  function BlockHeader(cs: list, a: nat, n: nat): Header {
    var i := Before(cs, a);
    if NextAdjacent(cs, a, n) then Header(n + cs[i].size, AddrAt(cs, i + 1)) else Header(n, AddrAt(cs, i))
  }

  lemma HeldSlots(mem: seq<Header>, cs: list, a: nat, n: nat)
    requires Canonical(cs) && Linked(mem, cs) && Held(cs, a, n) && a + n <= HEADER * |mem|
    ensures Slot(a) < |mem|
    ensures forall k :: 0 <= k < |cs| ==> Slot(cs[k].addr) != Slot(a)
  {
    SlotInside(a, n, |mem|);
    assert !Free(cs, a);
    forall k | 0 <= k < |cs|
      ensures Slot(cs[k].addr) != Slot(a)
    {
      assert Proper(cs[k]);
      assert !cs[k].Has(a);
      ChunkSlots(cs, k, a);
    }
  }

  lemma PutWrites(mem: seq<Header>, now: seq<Header>, cs: list, a: nat, n: nat)
    requires Canonical(cs) && Linked(mem, cs) && Held(cs, a, n) && a + n <= HEADER * |mem|
    requires var i, h := Before(cs, a), BlockHeader(cs, a, n);
             |now| == |mem| && Slot(a) < |mem| && (i > 0 ==> Slot(cs[i - 1].addr) < |mem|) &&
             now == var m := mem[Slot(a) := h];
                    if PrevAdjacent(cs, a) then m[Slot(cs[i - 1].addr) := Header(cs[i - 1].size + h.size, h.next)]
                    else Redirect(m, Prev(cs, i), a)
    ensures Linked(now, Put(cs, a, n))
    ensures AddrAt(Put(cs, a, n), 0) == if Before(cs, a) > 0 then AddrAt(cs, 0) else a
  {
    hide Canonical, Linked, Slot, Before, Held, Put, NextAdjacent;
    var i := Before(cs, a);
    PrevFacts(mem, cs, i);
    HeldSlots(mem, cs, a, n);
    if i > 0 {
      assert Slot(cs[i - 1].addr) != Slot(a);
    }
    PutLinked(mem, now, cs, a, n);
  }

  lemma HeldNotNull(cs: list, a: nat, n: nat)
    requires Canonical(cs) && Held(cs, a, n)
    ensures a >= HEADER && n >= HEADER
    ensures NextAdjacent(cs, a, n) <==> a + n == AddrAt(cs, Before(cs, a))
    ensures PrevAdjacent(cs, a) <==> Before(cs, a) > 0 && cs[Before(cs, a) - 1].End() == a
  {
  }

  /** Every counter moved by the change in the number of payload bytes of its bank. */
  ghost predicate Follows(was: seq<word>, now: seq<word>, cs: list, ds: list, first: int, size: nat) {
    |was| == |now| &&
    forall b :: 0 <= b < |now| ==>
      now[b] == Moved(was[b], cs, ds, BankLo(first, size, b), BankLo(first, size, b + 1))
  }

  ghost function Moved(count: word, cs: list, ds: list, lo: int, hi: int): word {
    ToWord(count + Count(Payload(ds), lo, hi) - Count(Payload(cs), lo, hi))
  }

  lemma FollowsTrans(w0: seq<word>, w1: seq<word>, w2: seq<word>, cs: list, ds: list, es: list, first: int, size: nat)
    requires Follows(w0, w1, cs, ds, first, size) && Follows(w1, w2, ds, es, first, size)
    ensures Follows(w0, w2, cs, es, first, size)
  {
    hide Moved, BankLo;
    forall b | 0 <= b < |w2|
      ensures w2[b] == Moved(w0[b], cs, es, BankLo(first, size, b), BankLo(first, size, b + 1))
    {
      MovedTwice(w0[b], cs, ds, es, BankLo(first, size, b), BankLo(first, size, b + 1));
    }
  }

  lemma MovedTwice(count: word, cs: list, ds: list, es: list, lo: int, hi: int)
    ensures Moved(Moved(count, cs, ds, lo, hi), ds, es, lo, hi) == Moved(count, cs, es, lo, hi)
  {
    hide Count, Payload, ToWord;
    ToWordAdd(count + Count(Payload(ds), lo, hi) - Count(Payload(cs), lo, hi),
              Count(Payload(es), lo, hi) - Count(Payload(ds), lo, hi));
  }

  /** Freed memory is exactly accounted: if a counter is the number of payload bytes of
      its bank, it still is, as long as that number fits 32 bits. */
  lemma MovedExact(cs: list, ds: list, lo: int, hi: int)
    requires hi - lo < TWO32
    ensures Count(Payload(cs), lo, hi) < TWO32
    ensures Moved(Count(Payload(cs), lo, hi), cs, ds, lo, hi) == Count(Payload(ds), lo, hi)
  {
    hide Payload;
    CountBound(Payload(cs), lo, hi);
    CountBound(Payload(ds), lo, hi);
  }

  lemma {:induction false} CountBound(s: iset<int>, lo: int, hi: int)
    ensures Count(s, lo, hi) <= if lo < hi then hi - lo else 0
    decreases hi - lo
  {
    if lo < hi {
      CountBound(s, lo, hi - 1);
    }
  }

  lemma TakeWithin(cs: list, n: nat, lo: nat, hi: int)
    requires Take(cs, n).0.Some? && AtLeast(cs, lo) && Within(cs, hi)
    ensures lo <= Take(cs, n).0.value && Take(cs, n).0.value + n <= hi
  {
  }

  // ------------------------------------------------------------- power calls

  /** The number of free payload bytes in bank b. */
  ghost function BankCount(cs: list, first: int, size: word, b: nat): (n: word)
    ensures n <= size
  {
    CountBound(Payload(cs), BankLo(first, size, b), BankLo(first, size, b + 1));
    BankStep(first, size, b);
    Count(Payload(cs), BankLo(first, size, b), BankLo(first, size, b + 1))
  }

  /** The counters as they are when they are exact. */
  ghost function BankCounts(cs: list, first: int, size: word, banks: nat): (counts: seq<word>)
    ensures |counts| == banks
  {
    seq(banks, b requires 0 <= b < banks => BankCount(cs, first, size, b))
  }

  /** The counters after a stretch has been accounted. */
  function Charged(counts: seq<word>, x: int, y: int, factor: int, first: int, size: nat): (now: seq<word>)
    ensures |now| == |counts|
  {
    seq(|counts|, b requires 0 <= b < |counts| =>
      Counted(counts[b], factor, Overlap(x, y, BankLo(first, size, b), BankLo(first, size, b + 1))))
  }

  lemma ChargedBanks(counts: seq<word>, x: int, y: int, factor: int, first: int, size: nat)
    ensures forall b :: 0 <= b < |counts| ==>
              Charged(counts, x, y, factor, first, size)[b] ==
              Counted(counts[b], factor, Overlap(x, y, BankLo(first, size, b), BankLo(first, size, b + 1)))
  {
    hide Counted, Overlap, BankLo;
  }

  /** The call, if any, that names the banks whose counter reached or left full. */
  function ReachedOrLeft(was: seq<word>, now: seq<word>, full: nat, up: bool): seq<PowerEvent>
    requires |was| == |now|
  {
    var named := set b: nat | b < |was| && (was[b] == full) != (now[b] == full);
    if named == {} then [] else [PowerEvent(named, up)]
  }

  /** The calls for stretches accounted one after another. */
  function PowerCalls(counts: seq<word>, stretches: seq<(int, int)>, factor: int, first: int, size: nat)
    : seq<PowerEvent>
    decreases |stretches|
  {
    if stretches == [] then []
    else
      var now := Charged(counts, stretches[0].0, stretches[0].1, factor, first, size);
      ReachedOrLeft(counts, now, size, factor == -1) + PowerCalls(now, stretches[1..], factor, first, size)
  }

  ghost function TakePower(cs: list, n: nat, first: int, size: word, banks: nat): seq<PowerEvent> {
    PowerCalls(BankCounts(cs, first, size, banks), TakeAccounts(cs, n), -1, first, size)
  }

  ghost function PutPower(cs: list, a: nat, n: nat, first: int, size: word, banks: nat): seq<PowerEvent> {
    PowerCalls(BankCounts(cs, first, size, banks), PutAccounts(cs, a, n), 1, first, size)
  }

  /** The call the walk over the banks makes, if it names any. */
  ghost function CallMade(was: seq<word>, now: seq<word>, x: int, y: int, factor: int, first: int, full: nat)
    : seq<PowerEvent>
    requires |was| == |now|
  {
    var named := Named(was, now, factor, full, x, y, first);
    if named == {} then [] else [PowerEvent(named, factor == -1)]
  }

  /** The list once the room in front of an aligned block is free again. */
  function FrontFreed(t0: list, result: nat, ra: nat): list
    requires result <= ra
  {
    if ra != result then Put(t0, result, ra - result) else t0
  }

  /** The calls for what is freed in front of an aligned block and behind it. */
  ghost function AroundPower(t0: list, result: nat, ra: nat, size: nat, n: nat, first: int, bank: nat, banks: nat)
    : seq<PowerEvent>
    requires result <= ra && ra - result + size <= n && bank < TWO32
  {
    (if ra != result then PutPower(t0, result, ra - result, first, bank, banks) else []) +
    PutPower(FrontFreed(t0, result, ra), ra + size, n - (ra - result) - size, first, bank, banks)
  }

  /** The same calls after whatever was called before. */
  lemma AroundAfter(before: seq<PowerEvent>, t0: list, result: nat, ra: nat, size: nat, n: nat,
                    first: int, bank: nat, banks: nat)
    requires result <= ra && ra - result + size <= n && bank < TWO32
    ensures var t1 := FrontFreed(t0, result, ra);
            var front := if ra != result then PutPower(t0, result, ra - result, first, bank, banks) else [];
            before + AroundPower(t0, result, ra, size, n, first, bank, banks) ==
            before + front + PutPower(t1, ra + size, n - (ra - result) - size, first, bank, banks)
  {
    hide PutPower, FrontFreed;
  }

  /** What is left behind the block is a whole number of granules too. */
  lemma TailRounded(n: nat, front: nat, size: nat)
    requires n % HEADER == 0 && front % HEADER == 0 && size % HEADER == 0 && front + size <= n
    ensures (n - front - size) % HEADER == 0
  {
    Mod8(front, size);
    Mod8(front + size, n);
  }

  /** The calls of an aligned allocation. */
  ghost function AlignedPower(cs: list, size: nat, align: nat, first: int, bank: nat, banks: nat): seq<PowerEvent>
    requires align > 0 && bank < TWO32
  {
    if align < HEADER then TakePower(cs, RoundUp8(size), first, bank, banks)
    else
      var n := size + align + HEADER * 2;
      var (r, t0) := Take(cs, n);
      match r
      case None => TakePower(cs, n, first, bank, banks)
      case Some(result) =>
        TakePower(cs, n, first, bank, banks) +
        AroundPower(t0, result, RoundUp(result, align), size, n, first, bank, banks)
  }

  lemma PowerOfOne(counts: seq<word>, x: (int, int), factor: int, first: int, size: nat)
    ensures PowerCalls(counts, [x], factor, first, size) ==
            ReachedOrLeft(counts, Charged(counts, x.0, x.1, factor, first, size), size, factor == -1)
  {
    hide Charged, ReachedOrLeft;
    assert [x][1..] == [];
  }

  lemma PowerOfTwoStretches(counts: seq<word>, x: (int, int), y: (int, int), factor: int, first: int, size: nat)
    ensures var mid := Charged(counts, x.0, x.1, factor, first, size);
            PowerCalls(counts, [x, y], factor, first, size) ==
            ReachedOrLeft(counts, mid, size, factor == -1) +
            ReachedOrLeft(mid, Charged(mid, y.0, y.1, factor, first, size), size, factor == -1)
  {
    hide Charged, ReachedOrLeft;
    assert [x, y][1..] == [y];
    PowerOfOne(Charged(counts, x.0, x.1, factor, first, size), y, factor, first, size);
  }

  ghost predicate AtMost(counts: seq<word>, full: nat) {
    forall b :: 0 <= b < |counts| ==> counts[b] <= full
  }

  /** A call made while counters keep within the bank size. */
  lemma CallNames(was: seq<word>, now: seq<word>, x: int, y: int, factor: int, first: int, full: nat)
    requires now == Charged(was, x, y, factor, first, full) && factor in {1, -1} && 0 < full < TWO31
    requires AtMost(was, full) && AtMost(now, full)
    ensures CallMade(was, now, x, y, factor, first, full) == ReachedOrLeft(was, now, full, factor == -1)
  {
    hide Named, Overlap, BankLo, Counted, Charged;
    ChargedBanks(was, x, y, factor, first, full);
    NamedReachOrLeave(was, now, factor, full, x, y, first);
    var named := Named(was, now, factor, full, x, y, first);
    NamedBounded(was, now, factor, full, x, y, first);
    assert named == set b: nat | b < |was| && (was[b] == full) != (now[b] == full);
  }

  lemma NamedBounded(was: seq<word>, now: seq<word>, factor: int, full: nat, x: int, y: int, first: int)
    requires |was| == |now|
    ensures forall b :: b in Named(was, now, factor, full, x, y, first) ==> b < |was|
  {
  }

  lemma CountsAtMost(cs: list, first: int, size: word, banks: nat)
    ensures AtMost(BankCounts(cs, first, size, banks), size)
  {
    hide BankCount;
  }

  /** The end of a walk over the banks, as counters and call. */
  lemma AccountResult(was: seq<word>, now: seq<word>, factor: int, full: nat, x: int, y: int, first: int,
                      b0: nat, b1: nat, ctrl: set<nat>)
    requires Walked(was, now, factor, full, x, y, first, b0, b1, ctrl) && x <= y && b0 <= b1
    requires BankLo(first, full, b0) <= x && (x == y || y <= BankLo(first, full, b1))
    ensures |was| == |now| && now == Charged(was, x, y, factor, first, full)
    ensures (if ctrl != {} then [PowerEvent(ctrl, factor == -1)] else []) ==
            CallMade(was, now, x, y, factor, first, full)
  {
    hide Walked, Overlap, BankLo, Counted, Charged, Named;
    WalkedLength(was, now, factor, full, x, y, first, b0, b1, ctrl);
    AccountDone(was, now, factor, full, x, y, first, b0, b1, ctrl);
    ChargedBanks(was, x, y, factor, first, full);
    var charged := Charged(was, x, y, factor, first, full);
    forall b | 0 <= b < |was| ensures now[b] == charged[b] {
      assert now[b] == Counted(was[b], factor, Overlap(x, y, BankLo(first, full, b), BankLo(first, full, b + 1)));
    }
  }

  lemma WalkedLength(was: seq<word>, now: seq<word>, factor: int, full: nat, x: int, y: int, first: int,
                     b0: nat, b1: nat, ctrl: set<nat>)
    requires Walked(was, now, factor, full, x, y, first, b0, b1, ctrl)
    ensures |was| == |now|
  {
  }

  /** Between the two stretches of an allocation the counters keep within the bank size. */
  lemma TakeMidway(cs: list, n: nat, first: int, size: word, banks: nat)
    requires Canonical(cs) && n > 0 && n % HEADER == 0 && Fit(cs, n) < |cs|
    ensures var c, after := cs[Fit(cs, n)], BankCounts(Take(cs, n).1, first, size, banks);
            var mid := Charged(BankCounts(cs, first, size, banks), c.addr + HEADER, c.addr + n, -1, first, size);
            AtMost(mid, size) && (c.size == n ==> mid == after) &&
            (c.size != n ==> Charged(mid, c.addr + n, c.addr + n + HEADER, -1, first, size) == after)
  {
    hide Take, Fit, Overlap, Canonical, BankLo, ToWord, BankCount, Counted;
    var c := cs[Fit(cs, n)];
    var after := BankCounts(Take(cs, n).1, first, size, banks);
    var mid := Charged(BankCounts(cs, first, size, banks), c.addr + HEADER, c.addr + n, -1, first, size);
    var last := Charged(mid, c.addr + n, c.addr + n + HEADER, -1, first, size);
    forall b | 0 <= b < banks
      ensures mid[b] <= size && (c.size == n ==> mid[b] == after[b]) && (c.size != n ==> last[b] == after[b])
    {
      TakeMidwayBank(cs, n, first, size, b);
    }
    if c.size == n {
      assert mid == after;
    } else {
      assert last == after;
    }
  }

  /** The same for one bank. */
  lemma TakeMidwayBank(cs: list, n: nat, first: int, size: word, b: nat)
    requires Canonical(cs) && n > 0 && n % HEADER == 0 && Fit(cs, n) < |cs|
    ensures var c, lo, hi := cs[Fit(cs, n)], BankLo(first, size, b), BankLo(first, size, b + 1);
            var mid := Counted(BankCount(cs, first, size, b), -1, Overlap(c.addr + HEADER, c.addr + n, lo, hi));
            var after := BankCount(Take(cs, n).1, first, size, b);
            mid <= size && after <= mid <= BankCount(cs, first, size, b) && (c.size == n ==> mid == after) &&
            (c.size != n ==> Counted(mid, -1, Overlap(c.addr + n, c.addr + n + HEADER, lo, hi)) == after)
  {
    hide Take, Fit, Overlap, Count, Payload, Canonical, BankLo, ToWord, Counted;
    var c, lo, hi := cs[Fit(cs, n)], BankLo(first, size, b), BankLo(first, size, b + 1);
    TakeCounts(cs, n, lo, hi);
    var x, y := (c.addr + HEADER, c.addr + n), (c.addr + n, c.addr + n + HEADER);
    SumOne(x, lo, hi);
    SumTwo(x, y, lo, hi);
    var count, after := BankCount(cs, first, size, b), BankCount(Take(cs, n).1, first, size, b);
    CountedDown(count, Overlap(x.0, x.1, lo, hi));
    CountedDown(Counted(count, -1, Overlap(x.0, x.1, lo, hi)), Overlap(y.0, y.1, lo, hi));
  }

  lemma CountedDown(count: word, n: nat)
    ensures n <= count ==> Counted(count, -1, n) == count - n
  {
  }

  lemma CountedUp(count: word, n: nat)
    ensures count + n < TWO32 ==> Counted(count, 1, n) == count + n
  {
  }

  /** The counters after the header of a chunk that is joined behind is accounted. */
  function JoinedCounts(cs: list, a: nat, n: nat, counts: seq<word>, first: int, size: nat): (now: seq<word>)
    ensures |now| == |counts|
  {
    if NextAdjacent(cs, a, n) then Charged(counts, a + n, a + n + HEADER, 1, first, size) else counts
  }

  /** Where the accounting of a released block starts: its header stays out unless the
      block is joined to the chunk before it. */
  function PayloadStart(cs: list, a: nat): nat {
    if PrevAdjacent(cs, a) then a else a + HEADER
  }

  lemma BankCountsAt(cs: list, first: int, size: word, banks: nat, b: nat)
    requires b < banks
    ensures BankCounts(cs, first, size, banks)[b] == BankCount(cs, first, size, b)
  {
  }

  lemma ChargedAt(counts: seq<word>, x: int, y: int, factor: int, first: int, size: nat, b: nat)
    requires b < |counts|
    ensures Charged(counts, x, y, factor, first, size)[b] ==
            Counted(counts[b], factor, Overlap(x, y, BankLo(first, size, b), BankLo(first, size, b + 1)))
  {
  }

  /** And so they do within a release. */
  lemma PutMidway(cs: list, a: nat, n: nat, first: int, size: word, banks: nat)
    requires Canonical(cs) && Held(cs, a, n)
    ensures var mid := JoinedCounts(cs, a, n, BankCounts(cs, first, size, banks), first, size);
            AtMost(mid, size) &&
            Charged(mid, PayloadStart(cs, a), a + n, 1, first, size) == BankCounts(Put(cs, a, n), first, size, banks)
  {
    hide Put, Overlap, Canonical, Held, BankLo, ToWord, BankCount, BankCounts, Counted, Charged, NextAdjacent,
      PrevAdjacent, PayloadStart;
    var before, after := BankCounts(cs, first, size, banks), BankCounts(Put(cs, a, n), first, size, banks);
    var mid := JoinedCounts(cs, a, n, before, first, size);
    forall b | 0 <= b < banks
      ensures mid[b] <= size && Charged(mid, PayloadStart(cs, a), a + n, 1, first, size)[b] == after[b]
    {
      BankCountsAt(cs, first, size, banks, b);
      BankCountsAt(Put(cs, a, n), first, size, banks, b);
      ChargedAt(before, a + n, a + n + HEADER, 1, first, size, b);
      ChargedAt(mid, PayloadStart(cs, a), a + n, 1, first, size, b);
      PutMidwayBank(cs, a, n, first, size, b);
    }
    assert Charged(mid, PayloadStart(cs, a), a + n, 1, first, size) == after;
  }

  /** The same for one bank. */
  lemma PutMidwayBank(cs: list, a: nat, n: nat, first: int, size: word, b: nat)
    requires Canonical(cs) && Held(cs, a, n)
    ensures var lo, hi := BankLo(first, size, b), BankLo(first, size, b + 1);
            var count := BankCount(cs, first, size, b);
            var mid := if NextAdjacent(cs, a, n) then Counted(count, 1, Overlap(a + n, a + n + HEADER, lo, hi))
                       else count;
            mid <= size && BankCount(cs, first, size, b) <= mid <= BankCount(Put(cs, a, n), first, size, b) &&
            Counted(mid, 1, Overlap(PayloadStart(cs, a), a + n, lo, hi)) == BankCount(Put(cs, a, n), first, size, b)
  {
    hide Put, Overlap, Count, Payload, Canonical, Held, NextAdjacent, PrevAdjacent, BankLo, ToWord, Counted,
      PayloadStart;
    var lo, hi := BankLo(first, size, b), BankLo(first, size, b + 1);
    var x, y := (PayloadStart(cs, a), a + n), (a + n, a + n + HEADER);
    PutAccounted(cs, a, n, lo, hi);
    var after := BankCount(Put(cs, a, n), first, size, b);
    CountedUp(BankCount(cs, first, size, b), Overlap(y.0, y.1, lo, hi));
    var mid: int := BankCount(cs, first, size, b) + if NextAdjacent(cs, a, n) then Overlap(y.0, y.1, lo, hi) else 0;
    assert after == mid + Overlap(x.0, x.1, lo, hi);
    CountedUp(mid, Overlap(x.0, x.1, lo, hi));
  }

  /** What a release accounts in a stretch, piece by piece. */
  lemma PutAccounted(cs: list, a: nat, n: nat, lo: int, hi: int)
    requires Canonical(cs) && Held(cs, a, n)
    ensures Count(Payload(Put(cs, a, n)), lo, hi) ==
            Count(Payload(cs), lo, hi) + Overlap(PayloadStart(cs, a), a + n, lo, hi) +
            if NextAdjacent(cs, a, n) then Overlap(a + n, a + n + HEADER, lo, hi) else 0
  {
    hide Put, Overlap, Count, Payload, Canonical, Held, NextAdjacent, PrevAdjacent;
    var x, y := (PayloadStart(cs, a), a + n), (a + n, a + n + HEADER);
    PutCounts(cs, a, n, lo, hi);
    SumOne(x, lo, hi);
    SumTwo(y, x, lo, hi);
    assert [y] + [x] == [y, x];
    assert [] + [x] == [x];
  }

  // ------------------------------------------------------------- whole operations

  /** What the accounting of an allocation does to the counters. */
  lemma TakeCharges(counts: seq<word>, once: seq<word>, now: seq<word>, cs: list, n: nat, first: int, size: nat)
    requires Canonical(cs) && n > 0 && n % HEADER == 0 && Fit(cs, n) < |cs|
    requires var c := cs[Fit(cs, n)];
             once == Charged(counts, c.addr + HEADER, c.addr + HEADER + (n - HEADER), -1, first, size) &&
             now == if c.size == n then once else Charged(once, c.addr + n, c.addr + n + HEADER, -1, first, size)
    ensures Follows(counts, now, cs, Take(cs, n).1, first, size)
  {
    hide Take, Fit, Overlap, Count, Payload, Canonical, BankLo, Counted, Charged;
    var c := cs[Fit(cs, n)];
    ChargedBanks(counts, c.addr + HEADER, c.addr + HEADER + (n - HEADER), -1, first, size);
    ChargedBanks(once, c.addr + n, c.addr + n + HEADER, -1, first, size);
    forall b | 0 <= b < |now|
      ensures now[b] == Moved(counts[b], cs, Take(cs, n).1, BankLo(first, size, b), BankLo(first, size, b + 1))
    {
      TakeFollows(cs, n, BankLo(first, size, b), BankLo(first, size, b + 1), counts[b]);
    }
  }

  /** Exact counters stay exact, and the calls name what reached or left full. */
  lemma TakeCalls(counts: seq<word>, once: seq<word>, now: seq<word>, cs: list, n: nat,
                  first: int, size: nat, banks: nat)
    requires Canonical(cs) && n > 0 && n % HEADER == 0 && Fit(cs, n) < |cs| && 0 < size < TWO31
    requires counts == BankCounts(cs, first, size, banks)
    requires var c := cs[Fit(cs, n)];
             once == Charged(counts, c.addr + HEADER, c.addr + HEADER + (n - HEADER), -1, first, size) &&
             now == if c.size == n then once else Charged(once, c.addr + n, c.addr + n + HEADER, -1, first, size)
    ensures now == BankCounts(Take(cs, n).1, first, size, banks)
    ensures var c := cs[Fit(cs, n)];
            var call := CallMade(counts, once, c.addr + HEADER, c.addr + HEADER + (n - HEADER), -1, first, size);
            var more := if c.size == n then []
                        else CallMade(once, now, c.addr + n, c.addr + n + HEADER, -1, first, size);
            call + more == TakePower(cs, n, first, size, banks)
  {
    hide Take, Fit, Canonical, BankCounts, CallMade, Charged, PowerCalls, ReachedOrLeft, AtMost;
    var c := cs[Fit(cs, n)];
    TakeMidway(cs, n, first, size, banks);
    CountsAtMost(cs, first, size, banks);
    CountsAtMost(Take(cs, n).1, first, size, banks);
    CallNames(counts, once, c.addr + HEADER, c.addr + n, -1, first, size);
    var x, y := (c.addr + HEADER, c.addr + n), (c.addr + n, c.addr + n + HEADER);
    if c.size == n {
      PowerOfOne(counts, x, -1, first, size);
    } else {
      CallNames(once, now, c.addr + n, c.addr + n + HEADER, -1, first, size);
      PowerOfTwoStretches(counts, x, y, -1, first, size);
    }
  }

  lemma PayloadStartIs(cs: list, a: nat)
    ensures PayloadStart(cs, a) == if PrevAdjacent(cs, a) then a else a + HEADER
  {
    hide PrevAdjacent;
  }

  lemma PutCharges(counts: seq<word>, once: seq<word>, now: seq<word>, cs: list, a: nat, n: nat, first: int, size: nat)
    requires Canonical(cs) && Held(cs, a, n)
    requires once == JoinedCounts(cs, a, n, counts, first, size)
    requires var x := PayloadStart(cs, a); now == Charged(once, x, x + (a + n - x), 1, first, size)
    ensures Follows(counts, now, cs, Put(cs, a, n), first, size)
  {
    hide Put, Overlap, Count, Payload, Canonical, Held, NextAdjacent, PrevAdjacent, BankLo, Counted, Charged,
      PayloadStart;
    PayloadStartIs(cs, a);
    var x := PayloadStart(cs, a);
    ChargedBanks(counts, a + n, a + n + HEADER, 1, first, size);
    ChargedBanks(once, x, x + (a + n - x), 1, first, size);
    forall b | 0 <= b < |now|
      ensures now[b] == Moved(counts[b], cs, Put(cs, a, n), BankLo(first, size, b), BankLo(first, size, b + 1))
    {
      PutFollows(cs, a, n, BankLo(first, size, b), BankLo(first, size, b + 1), counts[b]);
    }
  }

  lemma PutCalls(counts: seq<word>, once: seq<word>, now: seq<word>, cs: list, a: nat, n: nat,
                 first: int, size: nat, banks: nat)
    requires Canonical(cs) && Held(cs, a, n) && 0 < size < TWO31
    requires counts == BankCounts(cs, first, size, banks)
    requires once == JoinedCounts(cs, a, n, counts, first, size)
    requires now == Charged(once, PayloadStart(cs, a), a + n, 1, first, size)
    ensures now == BankCounts(Put(cs, a, n), first, size, banks)
    ensures var call := if NextAdjacent(cs, a, n) then CallMade(counts, once, a + n, a + n + HEADER, 1, first, size)
                        else [];
            call + CallMade(once, now, PayloadStart(cs, a), a + n, 1, first, size) ==
            PutPower(cs, a, n, first, size, banks)
  {
    hide Put, Canonical, Held, BankCounts, CallMade, Charged, PowerCalls, ReachedOrLeft, AtMost, NextAdjacent,
      PrevAdjacent;
    PutMidway(cs, a, n, first, size, banks);
    CountsAtMost(cs, first, size, banks);
    CountsAtMost(Put(cs, a, n), first, size, banks);
    CallNames(once, now, PayloadStart(cs, a), a + n, 1, first, size);
    var x, y := (PayloadStart(cs, a), a + n), (a + n, a + n + HEADER);
    if NextAdjacent(cs, a, n) {
      CallNames(counts, once, a + n, a + n + HEADER, 1, first, size);
      PowerOfTwoStretches(counts, y, x, 1, first, size);
      assert [y] + [x] == [y, x];
    } else {
      PowerOfOne(counts, x, 1, first, size);
      assert [] + [x] == [x];
    }
  }
}
