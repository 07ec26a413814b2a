/** What the power controller is told: which banks are switched on by an allocation and
    off by a release (sw/pulp-runtime/kernel/alloc.c). */
module BankPower {
  import opened Words
  import opened FreeList
  import opened Banks
  import opened ChunkMemory

  /** No byte of bank b is in use: each lies in a free chunk, behind its 8-byte header. */
  ghost predicate AllFree(cs: list, first: int, size: nat, b: nat) {
    forall x :: first + b * size <= x < first + b * size + size ==> FreeByte(cs, x)
  }

  ghost predicate FreeByte(cs: list, x: int) {
    exists i :: 0 <= i < |cs| && cs[i].addr + 8 <= x < cs[i].addr + cs[i].size
  }

  lemma {:induction false} CountAll(s: iset<int>, lo: int, hi: int)
    requires lo <= hi
    ensures Count(s, lo, hi) <= hi - lo
    ensures Count(s, lo, hi) == hi - lo <==> forall x :: lo <= x < hi ==> x in s
    decreases hi - lo
  {
    if lo < hi {
      CountAll(s, lo, hi - 1);
    }
  }

  /** A counter shows the bank size exactly when no byte of its bank is in use. */
  lemma FullIsFree(cs: list, first: int, size: word, b: nat)
    ensures BankCount(cs, first, size, b) == size <==> AllFree(cs, first, size, b)
  {
    hide Count, Payload;
    BankStep(first, size, b);
    var lo, hi := BankLo(first, size, b), BankLo(first, size, b + 1);
    CountAll(Payload(cs), lo, hi);
    forall x
      ensures x in Payload(cs) <==> FreeByte(cs, x)
    {
      PayloadIs(cs, x);
    }
    assert AllFree(cs, first, size, b) <==> forall x :: lo <= x < hi ==> x in Payload(cs);
  }

  lemma PayloadIs(cs: list, x: int)
    ensures x in Payload(cs) <==> FreeByte(cs, x)
  {
  }

  /** Some call names bank b. */
  ghost predicate Named(calls: seq<PowerEvent>, b: nat) {
    exists k :: 0 <= k < |calls| && b in calls[k].banks
  }

  ghost predicate AllAre(calls: seq<PowerEvent>, on: bool) {
    forall k :: 0 <= k < |calls| ==> calls[k].on == on
  }

  /** One or two calls between counters that only fall, or only rise. */
  lemma CallsName(x: seq<word>, y: seq<word>, z: seq<word>, full: nat, up: bool)
    requires |x| == |y| == |z|
    requires forall b :: 0 <= b < |x| ==> x[b] <= full && y[b] <= full && z[b] <= full
    requires forall b :: 0 <= b < |x| ==> if up then x[b] >= y[b] >= z[b] else x[b] <= y[b] <= z[b]
    ensures var calls := ReachedOrLeft(x, y, full, up) + ReachedOrLeft(y, z, full, up);
            AllAre(calls, up) &&
            forall b: nat :: Named(calls, b) <==> b < |x| && (x[b] == full) != (z[b] == full)
  {
    var c, d := ReachedOrLeft(x, y, full, up), ReachedOrLeft(y, z, full, up);
    forall b: nat
      ensures Named(c + d, b) <==> b < |x| && (x[b] == full) != (z[b] == full)
    {
      OneCall(x, y, full, up, b);
      OneCall(y, z, full, up, b);
      NamedEither(c, d, b);
    }
  }

  lemma OneCall(x: seq<word>, y: seq<word>, full: nat, up: bool, b: nat)
    requires |x| == |y|
    ensures Named(ReachedOrLeft(x, y, full, up), b) <==> b < |x| && (x[b] == full) != (y[b] == full)
  {
    var named := set b: nat | b < |x| && (x[b] == full) != (y[b] == full);
    var calls := ReachedOrLeft(x, y, full, up);
    if b in named {
      assert b in calls[0].banks;
    }
  }

  lemma NamedEither(c: seq<PowerEvent>, d: seq<PowerEvent>, b: nat)
    ensures Named(c + d, b) <==> Named(c, b) || Named(d, b)
  {
    if k :| 0 <= k < |c| && b in c[k].banks {
      assert b in (c + d)[k].banks;
    }
    if k :| 0 <= k < |d| && b in d[k].banks {
      assert b in (c + d)[|c| + k].banks;
    }
  }

  lemma NothingNamed(x: seq<word>, full: nat, up: bool)
    ensures ReachedOrLeft(x, x, full, up) == []
  {
    assert (set b: nat | b < |x| && (x[b] == full) != (x[b] == full)) == {};
  }

  /** The counters of all banks, and what they say. */
  lemma CountersSay(cs: list, first: int, size: word, banks: nat)
    ensures forall b :: 0 <= b < banks ==>
              BankCounts(cs, first, size, banks)[b] == BankCount(cs, first, size, b) <= size &&
              (BankCounts(cs, first, size, banks)[b] == size <==> AllFree(cs, first, size, b))
  {
    hide BankCount, AllFree;
    forall b | 0 <= b < banks
      ensures BankCounts(cs, first, size, banks)[b] == BankCount(cs, first, size, b) <= size &&
              (BankCounts(cs, first, size, banks)[b] == size <==> AllFree(cs, first, size, b))
    {
      FullIsFree(cs, first, size, b);
    }
  }

  /** The counters only fall on the way. */
  lemma TakeFalls(cs: list, n: nat, first: int, size: word, banks: nat) returns (mid: seq<word>)
    requires Canonical(cs) && n > 0 && n % 8 == 0 && Fit(cs, n) < |cs|
    ensures var x, z := BankCounts(cs, first, size, banks), BankCounts(Take(cs, n).1, first, size, banks);
            |mid| == banks && (forall b :: 0 <= b < banks ==> x[b] >= mid[b] >= z[b]) &&
            TakePower(cs, n, first, size, banks) ==
            ReachedOrLeft(x, mid, size, true) + ReachedOrLeft(mid, z, size, true)
  {
    hide Take, Fit, Canonical, BankCount, Counted, Charged, Overlap, PowerCalls, ReachedOrLeft, BankCounts, BankLo;
    var c := cs[Fit(cs, n)];
    var x, z := BankCounts(cs, first, size, banks), BankCounts(Take(cs, n).1, first, size, banks);
    var p, q := (c.addr + 8, c.addr + n), (c.addr + n, c.addr + n + 8);
    mid := Charged(x, p.0, p.1, -1, first, size);
    TakeMidway(cs, n, first, size, banks);
    forall b | 0 <= b < banks
      ensures x[b] >= mid[b] >= z[b]
    {
      BankCountsAt(cs, first, size, banks, b);
      BankCountsAt(Take(cs, n).1, first, size, banks, b);
      ChargedAt(x, p.0, p.1, -1, first, size, b);
      TakeMidwayBank(cs, n, first, size, b);
    }
    if c.size == n {
      PowerOfOne(x, p, -1, first, size);
      NothingNamed(z, size, true);
    } else {
      PowerOfTwoStretches(x, p, q, -1, first, size);
    }
  }

  /** An allocation switches on exactly the banks that were not in use and now are. */
  lemma TakeSwitchesOn(cs: list, n: nat, first: int, size: word, banks: nat)
    requires Canonical(cs) && n > 0 && n % 8 == 0
    ensures var calls := TakePower(cs, n, first, size, banks);
            AllAre(calls, true) &&
            forall b: nat :: Named(calls, b) <==>
              b < banks && AllFree(cs, first, size, b) && !AllFree(Take(cs, n).1, first, size, b)
  {
    hide Fit, Canonical, BankCount, BankCounts, Charged, PowerCalls, ReachedOrLeft, AllFree, Named, AllAre;
    if Fit(cs, n) < |cs| {
      hide Take, TakePower;
      var mid := TakeFalls(cs, n, first, size, banks);
      CountersSay(cs, first, size, banks);
      CountersSay(Take(cs, n).1, first, size, banks);
      CallsName(BankCounts(cs, first, size, banks), mid, BankCounts(Take(cs, n).1, first, size, banks), size, true);
    } else {
      NoCalls(cs, n, first, size, banks);
    }
  }

  lemma NoCalls(cs: list, n: nat, first: int, size: word, banks: nat)
    requires Fit(cs, n) == |cs|
    ensures TakePower(cs, n, first, size, banks) == [] && Take(cs, n).1 == cs
    ensures AllAre([], true) && forall b: nat :: !Named([], b)
  {
    hide Fit;
  }

  /** And only rise. */
  lemma PutRises(cs: list, a: nat, n: nat, first: int, size: word, banks: nat) returns (mid: seq<word>)
    requires Canonical(cs) && Held(cs, a, n)
    ensures var x, z := BankCounts(cs, first, size, banks), BankCounts(Put(cs, a, n), first, size, banks);
            |mid| == banks && (forall b :: 0 <= b < banks ==> x[b] <= mid[b] <= z[b]) &&
            PutPower(cs, a, n, first, size, banks) ==
            ReachedOrLeft(x, mid, size, false) + ReachedOrLeft(mid, z, size, false)
  {
    hide Put, Canonical, Held, BankCount, Counted, Charged, Overlap, PowerCalls, ReachedOrLeft, BankCounts, BankLo,
      NextAdjacent, PrevAdjacent;
    var x, z := BankCounts(cs, first, size, banks), BankCounts(Put(cs, a, n), first, size, banks);
    var p, q := (PayloadStart(cs, a), a + n), (a + n, a + n + 8);
    mid := JoinedCounts(cs, a, n, x, first, size);
    PutMidway(cs, a, n, first, size, banks);
    forall b | 0 <= b < banks
      ensures x[b] <= mid[b] <= z[b]
    {
      BankCountsAt(cs, first, size, banks, b);
      BankCountsAt(Put(cs, a, n), first, size, banks, b);
      ChargedAt(x, q.0, q.1, 1, first, size, b);
      PutMidwayBank(cs, a, n, first, size, b);
    }
    if NextAdjacent(cs, a, n) {
      PowerOfTwoStretches(x, q, p, 1, first, size);
      assert [q] + [p] == [q, p];
    } else {
      PowerOfOne(x, p, 1, first, size);
      NothingNamed(x, size, false);
      assert [] + [p] == [p];
    }
  }

  /** A release switches off exactly the banks that were in use and now are not. */
  lemma PutSwitchesOff(cs: list, a: nat, n: nat, first: int, size: word, banks: nat)
    requires Canonical(cs) && Held(cs, a, n)
    ensures var calls := PutPower(cs, a, n, first, size, banks);
            AllAre(calls, false) &&
            forall b: nat :: Named(calls, b) <==>
              b < banks && !AllFree(cs, first, size, b) && AllFree(Put(cs, a, n), first, size, b)
  {
    hide Put, Canonical, Held, BankCount, BankCounts, PutPower, ReachedOrLeft, AllFree, Named, AllAre;
    var mid := PutRises(cs, a, n, first, size, banks);
    CountersSay(cs, first, size, banks);
    CountersSay(Put(cs, a, n), first, size, banks);
    CallsName(BankCounts(cs, first, size, banks), mid, BankCounts(Put(cs, a, n), first, size, banks), size, false);
  }
}
