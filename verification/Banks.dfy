/** Power accounting: how many free bytes outside chunk headers lie in a memory bank,
    and what allocating and freeing does to that number
    (sw/pulp-runtime/kernel/alloc.c). */
module Banks {
  import opened Words
  import opened FreeList
  import opened AllocLaws

  /** b lies in a chunk behind its header. */
  predicate Inside(c: Chunk, b: int) {
    c.addr + HEADER <= b < c.End()
  }

  ghost predicate InPayload(cs: list, b: int) {
    exists i :: 0 <= i < |cs| && Inside(cs[i], b)
  }

  /** The bytes of free chunks behind their headers. */
  ghost function Payload(cs: list): iset<int> {
    iset b: int | InPayload(cs, b)
  }

  predicate Between(x: int, b: int, y: int) {
    x <= b < y
  }

  ghost function Interval(x: int, y: int): iset<int> {
    iset b: int | Between(x, b, y)
  }

  /** How many bytes of lo..hi are in s, counted one by one. */
  ghost function Count(s: iset<int>, lo: int, hi: int): nat
    decreases hi - lo
  {
    if hi <= lo then 0 else Count(s, lo, hi - 1) + if hi - 1 in s then 1 else 0
  }

  /** The length of the intersection of x..y and lo..hi. */
  function Overlap(x: int, y: int, lo: int, hi: int): nat {
    var a := if x < lo then lo else x;
    var b := if y < hi then y else hi;
    if a < b then b - a else 0
  }

  lemma {:induction false} CountAdd(s: iset<int>, x: int, y: int, lo: int, hi: int)
    requires s !! Interval(x, y)
    ensures Count(s + Interval(x, y), lo, hi) == Count(s, lo, hi) + Overlap(x, y, lo, hi)
    decreases hi - lo
  {
    if lo < hi {
      CountAdd(s, x, y, lo, hi - 1);
      assert hi - 1 in Interval(x, y) <==> x <= hi - 1 < y;
      assert hi - 1 in s ==> hi - 1 !in Interval(x, y);
    }
  }

  /** A payload byte is one that is free together with the byte a header before it. */
  lemma PayloadIsShiftedFree(cs: list, b: int)
    requires Canonical(cs)
    ensures b in Payload(cs) <==> Free(cs, b) && Free(cs, b - HEADER)
  {
    if b in Payload(cs) {
      var i :| 0 <= i < |cs| && Inside(cs[i], b);
      assert cs[i].Has(b) && cs[i].Has(b - HEADER);
    }
    if Free(cs, b) && Free(cs, b - HEADER) {
      var i :| 0 <= i < |cs| && cs[i].Has(b);
      var j :| 0 <= j < |cs| && cs[j].Has(b - HEADER);
      SameChunk(cs, i, j, b);
      assert Inside(cs[i], b);
    }
  }

  /** Bytes one header apart are not in different chunks. */
  lemma SameChunk(cs: list, i: nat, j: nat, b: int)
    requires Canonical(cs) && i < |cs| && j < |cs| && cs[i].Has(b) && cs[j].Has(b - HEADER)
    ensures i == j
  {
    hide Canonical;
    GapAtLeastHeader(cs, j, i);
    Ascending(cs, i, j);
  }

  lemma Ascending(cs: list, i: nat, j: nat)
    requires Canonical(cs) && i < |cs| && j < |cs|
    ensures i < j ==> cs[i].End() < cs[j].addr
  {
  }

  lemma GapAtLeastHeader(cs: list, j: nat, i: nat)
    requires Canonical(cs) && i < |cs| && j < |cs|
    ensures j < i ==> cs[j].End() + HEADER <= cs[i].addr
  {
    if j < i {
      assert cs[j].End() < cs[i].addr;
      assert Proper(cs[j]) && Proper(cs[i]);
      Mod8(cs[j].addr, cs[j].size);
      Mod8(cs[j].End(), cs[i].addr);
    }
  }

  /** Free bytes come in whole aligned granules. */
  lemma FreeGranule(cs: list, a: int, b: int)
    requires Canonical(cs) && a % HEADER == 0 && a <= b < a + HEADER
    ensures Free(cs, b) <==> Free(cs, a)
  {
    if Free(cs, b) {
      var i :| 0 <= i < |cs| && cs[i].Has(b);
      SameGranule(cs[i], a, b);
      assert cs[i].Has(a);
    }
    if Free(cs, a) {
      var i :| 0 <= i < |cs| && cs[i].Has(a);
      SameGranule(cs[i], a, b);
      assert cs[i].Has(b);
    }
  }

  lemma SameGranule(c: Chunk, a: int, b: int)
    requires Proper(c) && a % HEADER == 0 && a <= b < a + HEADER
    ensures c.Has(a) <==> c.Has(b)
  {
    Mod8(a, c.addr);
    Mod8(c.addr, c.size);
    Mod8(a, c.End());
  }

  /** The intervals pos_alloc accounts as no longer free payload. */
  function TakeAccounts(cs: list, n: nat): seq<(int, int)> {
    var i := Fit(cs, n);
    if i == |cs| then []
    else if cs[i].size == n then [(cs[i].addr + HEADER, cs[i].addr + n)]
    else [(cs[i].addr + HEADER, cs[i].addr + n), (cs[i].addr + n, cs[i].addr + n + HEADER)]
  }

  predicate NextAdjacent(cs: list, a: nat, n: nat) {
    Before(cs, a) < |cs| && cs[Before(cs, a)].addr == a + n
  }

  predicate PrevAdjacent(cs: list, a: nat) {
    Before(cs, a) > 0 && cs[Before(cs, a) - 1].End() == a
  }

  /** The intervals pos_free accounts as free payload again: the header of a chunk it
      joins in front of, and the block with or without room for a header. */
  function PutAccounts(cs: list, a: nat, n: nat): seq<(int, int)> {
    (if NextAdjacent(cs, a, n) then [(a + n, a + n + HEADER)] else []) +
    [(if PrevAdjacent(cs, a) then a else a + HEADER, a + n)]
  }

  function TotalOverlap(xs: seq<(int, int)>, lo: int, hi: int): nat
    decreases |xs|
  {
    if xs == [] then 0 else Overlap(xs[0].0, xs[0].1, lo, hi) + TotalOverlap(xs[1..], lo, hi)
  }

  lemma NextMultiple(e: nat, a: nat)
    requires e % HEADER == 0 && a % HEADER == 0 && a - HEADER < e <= a
    ensures e == a
  {
  }

  lemma PrevAdjacentFree(cs: list, a: nat, n: nat)
    requires Canonical(cs) && Held(cs, a, n)
    ensures PrevAdjacent(cs, a) <==> Free(cs, a - HEADER)
  {
    hide Before;
    HeldBetween(cs, a, n);
    var i := Before(cs, a);
    if PrevAdjacent(cs, a) {
      assert Proper(cs[i - 1]);
      assert cs[i - 1].Has(a - HEADER);
    }
    if Free(cs, a - HEADER) {
      var k :| 0 <= k < |cs| && cs[k].Has(a - HEADER);
      assert k < i;
      assert Proper(cs[k]);
      Mod8(cs[k].addr, cs[k].size);
      NextMultiple(cs[k].End(), a);
      Ascending(cs, k, i - 1);
    }
  }

  lemma NextAdjacentFree(cs: list, a: nat, n: nat)
    requires Canonical(cs) && Held(cs, a, n)
    ensures NextAdjacent(cs, a, n) <==> Free(cs, a + n)
  {
    hide Before;
    HeldBetween(cs, a, n);
    var i := Before(cs, a);
    if NextAdjacent(cs, a, n) {
      assert Proper(cs[i]);
      assert cs[i].Has(a + n);
    }
    if Free(cs, a + n) {
      var k :| 0 <= k < |cs| && cs[k].Has(a + n);
      assert k >= i;
      assert cs[k].addr == a + n;
      assert Proper(cs[i]);
      Ascending(cs, i, k);
    }
  }

  /** The payload after a free is the payload before it and the accounted intervals,
      which were no payload. */
  lemma PutPayload(cs: list, a: nat, n: nat, b: int)
    requires Canonical(cs) && Held(cs, a, n)
    ensures InPayload(Put(cs, a, n), b) <==>
              InPayload(cs, b) ||
              (NextAdjacent(cs, a, n) && Between(a + n, b, a + n + HEADER)) ||
              Between(if PrevAdjacent(cs, a) then a else a + HEADER, b, a + n)
    ensures Between(a, b, a + n + HEADER) ==> !InPayload(cs, b)
  {
    hide Put, Free, Canonical, InPayload, NextAdjacent, PrevAdjacent;
    PutCanonical(cs, a, n);
    PutBytes(cs, a, n);
    PayloadIsShiftedFree(cs, b);
    PayloadIsShiftedFree(Put(cs, a, n), b);
    PrevAdjacentFree(cs, a, n);
    NextAdjacentFree(cs, a, n);
    if a <= b < a + HEADER {
      FreeGranule(cs, a - HEADER, b - HEADER);
    } else if a + n <= b < a + n + HEADER {
      FreeGranule(cs, a + n, b);
    }
  }

  /** Freeing raises the payload count of every bank by what it accounts there. */
  lemma PutCounts(cs: list, a: nat, n: nat, lo: int, hi: int)
    requires Canonical(cs) && Held(cs, a, n)
    ensures Count(Payload(Put(cs, a, n)), lo, hi) ==
            Count(Payload(cs), lo, hi) + TotalOverlap(PutAccounts(cs, a, n), lo, hi)
  {
    hide Put, Free, Canonical, InPayload, NextAdjacent, PrevAdjacent, Overlap, Count, Held;
    var p, next := Payload(cs), NextAdjacent(cs, a, n);
    var x := if PrevAdjacent(cs, a) then a else a + HEADER;
    HeldSize(cs, a, n);
    forall b: int
      ensures b in Payload(Put(cs, a, n)) <==>
              b in p || (next && b in Interval(a + n, a + n + HEADER)) || b in Interval(x, a + n)
      ensures b in Interval(a, a + n + HEADER) ==> b !in p
    {
      PutPayload(cs, a, n, b);
    }
    CountAdd(p, x, a + n, lo, hi);
    var q := p + Interval(x, a + n);
    if next {
      CountAdd(q, a + n, a + n + HEADER, lo, hi);
      assert Payload(Put(cs, a, n)) == q + Interval(a + n, a + n + HEADER);
      SumTwo((a + n, a + n + HEADER), (x, a + n), lo, hi);
      assert PutAccounts(cs, a, n) == [(a + n, a + n + HEADER), (x, a + n)];
    } else {
      assert Payload(Put(cs, a, n)) == q;
      SumOne((x, a + n), lo, hi);
      assert PutAccounts(cs, a, n) == [(x, a + n)];
    }
  }

  lemma HeldSize(cs: list, a: nat, n: nat)
    requires Held(cs, a, n)
    ensures n >= HEADER
  {
  }

  lemma {:induction false} BeforeIs(cs: list, a: nat, i: nat)
    requires i <= |cs| && forall k :: 0 <= k < i ==> cs[k].addr < a
    requires i < |cs| ==> cs[i].addr >= a
    ensures Before(cs, a) == i
    decreases |cs|
  {
    if i > 0 {
      BeforeIs(cs[1..], a, i - 1);
    }
  }

  /** The neighbours of the place a block was taken from. */
  lemma TakenNeighbours(cs: list, n: nat)
    requires Canonical(cs) && n > 0 && Take(cs, n).0.Some?
    ensures var (r, t) := Take(cs, n);
            !PrevAdjacent(t, r.value) &&
            (NextAdjacent(t, r.value, n) <==> cs[Fit(cs, n)].size != n)
  {
    hide Fit, Before;
    var i := Fit(cs, n);
    var (r, t) := Take(cs, n);
    var a := r.value;
    assert forall k :: 0 <= k < i ==> t[k] == cs[k] && cs[k].End() < cs[i].addr;
    if cs[i].size == n {
      assert i < |t| ==> t[i] == cs[i + 1] && cs[i].End() < cs[i + 1].addr;
    } else {
      assert t[i] == Chunk(a + n, cs[i].size - n);
    }
    BeforeIs(t, a, i);
    assert i > 0 ==> t[i - 1] == cs[i - 1];
  }

  /** Allocating lowers the payload count of every bank by what it accounts there. */
  lemma TakeCounts(cs: list, n: nat, lo: int, hi: int)
    requires Canonical(cs) && n > 0 && n % HEADER == 0
    ensures Count(Payload(cs), lo, hi) ==
            Count(Payload(Take(cs, n).1), lo, hi) + TotalOverlap(TakeAccounts(cs, n), lo, hi)
  {
    hide Take, Put, Canonical, Count, Payload, Overlap, NextAdjacent, PrevAdjacent, Held;
    TakeCases(cs, n);
    if Take(cs, n).0.Some? {
      var (r, t) := Take(cs, n);
      TakePutInverse(cs, n);
      TakeCanonical(cs, n);
      TakenNeighbours(cs, n);
      PutCounts(t, r.value, n, lo, hi);
      var a := r.value;
      if cs[Fit(cs, n)].size != n {
        SumTwo((a + HEADER, a + n), (a + n, a + n + HEADER), lo, hi);
        SumTwo((a + n, a + n + HEADER), (a + HEADER, a + n), lo, hi);
        assert PutAccounts(t, a, n) == [(a + n, a + n + HEADER), (a + HEADER, a + n)];
      } else {
        assert PutAccounts(t, a, n) == [(a + HEADER, a + n)];
      }
    }
  }

  lemma TakeCases(cs: list, n: nat)
    ensures Take(cs, n).0.Some? <==> Fit(cs, n) < |cs|
    ensures Take(cs, n).0.Some? ==>
              Take(cs, n).0.value == cs[Fit(cs, n)].addr && Take(cs, n).1 == Shrink(cs, Fit(cs, n), n)
    ensures Take(cs, n).0 == None ==> Take(cs, n).1 == cs
  {
    hide Fit;
  }

  lemma SumTwo(x: (int, int), y: (int, int), lo: int, hi: int)
    ensures TotalOverlap([x, y], lo, hi) == Overlap(x.0, x.1, lo, hi) + Overlap(y.0, y.1, lo, hi)
  {
    assert [x, y][1..] == [y];
    SumOne(y, lo, hi);
  }

  lemma SumOne(y: (int, int), lo: int, hi: int)
    ensures TotalOverlap([y], lo, hi) == Overlap(y.0, y.1, lo, hi)
  {
    assert [y][1..] == [];
  }

  // -------------------------------------------------------- free memory

  ghost function FreeSet(cs: list): iset<int> {
    iset b: int | Free(cs, b)
  }

  /** The sizes of the chunks added up. */
  function TotalSize(cs: list): nat
    decreases |cs|
  {
    if cs == [] then 0 else TotalSize(cs[..|cs| - 1]) + cs[|cs| - 1].size
  }

  /** The last chunk adds its own bytes to those of the others. */
  lemma LastInterval(cs: list)
    requires Canonical(cs) && cs != []
    ensures var c, p := cs[|cs| - 1], cs[..|cs| - 1];
            FreeSet(cs) == FreeSet(p) + Interval(c.addr, c.End()) && FreeSet(p) !! Interval(c.addr, c.End())
  {
    hide Proper;
    var c, p := cs[|cs| - 1], cs[..|cs| - 1];
    assert p + [c] == cs;
    forall b: int
      ensures b in FreeSet(cs) <==> b in FreeSet(p) || b in Interval(c.addr, c.End())
      ensures b in Interval(c.addr, c.End()) ==> b !in FreeSet(p)
    {
      FreeConcat(p, [c], b);
      FreeSingle(c, b);
      assert forall i :: 0 <= i < |p| ==> p[i] == cs[i] && cs[i].End() < c.addr;
    }
  }

  /** The total is the number of free bytes. */
  lemma {:induction false} TotalIsCount(cs: list, lo: int, hi: int)
    requires Canonical(cs) && forall i :: 0 <= i < |cs| ==> lo <= cs[i].addr && cs[i].End() <= hi
    ensures TotalSize(cs) == Count(FreeSet(cs), lo, hi)
    decreases |cs|
  {
    hide Proper, Count, Overlap;
    if cs == [] {
      CountEmpty(FreeSet(cs), lo, hi);
    } else {
      var c, p := cs[|cs| - 1], cs[..|cs| - 1];
      TotalIsCount(p, lo, hi);
      assert p + [c] == cs;
      LastInterval(cs);
      CountAdd(FreeSet(p), c.addr, c.End(), lo, hi);
      OverlapWhole(c.addr, c.End(), lo, hi);
    }
  }

  lemma OverlapWhole(x: int, y: int, lo: int, hi: int)
    requires lo <= x <= y <= hi
    ensures Overlap(x, y, lo, hi) == y - x
  {
  }

  lemma {:induction false} CountEmpty(s: iset<int>, lo: int, hi: int)
    requires forall b :: b !in s
    ensures Count(s, lo, hi) == 0
    decreases hi - lo
  {
    if lo < hi {
      CountEmpty(s, lo, hi - 1);
    }
  }
}
