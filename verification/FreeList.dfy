/** The free list of the metadata-free allocator as a list of chunks, and the set of
    bytes it stands for (sw/pulp-runtime/kernel/alloc.c). */
module FreeList {
  import opened Words

  /** The smallest chunk, which is also the size of a chunk header. */
  const HEADER: nat := 8

  datatype Chunk = Chunk(addr: nat, size: nat) {
    function End(): nat { addr + size }
    predicate Has(b: int) { addr <= b < End() }
  }

  type list = seq<Chunk>

  predicate Proper(c: Chunk) {
    c.addr >= HEADER && c.addr % HEADER == 0 && c.size > 0 && c.size % HEADER == 0
  }

  /** The canonical form: aligned nonempty chunks above address 0, in ascending
      order, disjoint and nowhere adjacent. */
  ghost predicate Canonical(cs: list) {
    (forall i :: 0 <= i < |cs| ==> Proper(cs[i])) &&
    forall i, j :: 0 <= i < j < |cs| ==> cs[i].End() < cs[j].addr
  }

  /** The bytes the list covers. */
  ghost predicate Free(cs: list, b: int) {
    exists i :: 0 <= i < |cs| && cs[i].Has(b)
  }

  ghost predicate SameBytes(xs: list, ys: list) {
    forall b: int :: Free(xs, b) <==> Free(ys, b)
  }

  function RoundUp8(x: nat): (r: nat)
    ensures r % HEADER == 0 && x <= r < x + HEADER
    ensures x % HEADER == 0 ==> r == x
  {
    (x + 7) / 8 * 8
  }

  // ------------------------------------------------------------ uniqueness

  lemma CanonicalTail(cs: list)
    requires Canonical(cs) && cs != []
    ensures Canonical(cs[1..])
    ensures forall b: int :: Free(cs[1..], b) <==> Free(cs, b) && b >= cs[0].End()
  {
    forall b: int
      ensures Free(cs[1..], b) <==> Free(cs, b) && b >= cs[0].End()
    {
      if Free(cs, b) && b >= cs[0].End() {
        var i :| 0 <= i < |cs| && cs[i].Has(b);
        assert cs[1..][i - 1].Has(b);
      }
      if Free(cs[1..], b) {
        var i :| 0 <= i < |cs[1..]| && cs[1..][i].Has(b);
        assert cs[i + 1].Has(b);
      }
    }
  }

  lemma HeadFree(cs: list, b: int)
    requires Canonical(cs) && cs != []
    ensures Free(cs, cs[0].addr) && !Free(cs, cs[0].End())
    ensures Free(cs, b) ==> cs[0].addr <= b
    ensures cs[0].Has(b) ==> Free(cs, b)
  {
    assert cs[0].Has(cs[0].addr);
  }

  /** A set of free bytes has only one canonical list. */
  lemma {:induction false} CanonicalUnique(xs: list, ys: list)
    requires Canonical(xs) && Canonical(ys) && SameBytes(xs, ys)
    ensures xs == ys
    decreases |xs|
  {
    if xs == [] {
      if ys != [] {
        HeadFree(ys, 0);
        assert false;
      }
    } else {
      HeadFree(xs, 0);
      assert Free(ys, xs[0].addr);
      HeadFree(ys, xs[0].addr);
      HeadFree(xs, ys[0].addr);
      HeadFree(ys, xs[0].End());
      HeadFree(xs, ys[0].End());
      assert xs[0] == ys[0];
      CanonicalTail(xs);
      CanonicalTail(ys);
      CanonicalUnique(xs[1..], ys[1..]);
    }
  }

  // ------------------------------------------------------------ allocation

  /** The index of the first chunk that is large enough, or |cs|. */
  function Fit(cs: list, n: nat): (i: nat)
    ensures i <= |cs|
    ensures forall k :: 0 <= k < i ==> cs[k].size < n
    ensures i < |cs| ==> cs[i].size >= n
    decreases |cs|
  {
    if cs == [] then 0
    else if cs[0].size >= n then 0
    else 1 + Fit(cs[1..], n)
  }

  /** First fit for n bytes, n already rounded: the front of the chunk is taken. */
  function Take(cs: list, n: nat): (Option<nat>, list) {
    var i := Fit(cs, n);
    if i == |cs| then (None, cs) else (Some(cs[i].addr), Shrink(cs, i, n))
  }

  /** n bytes from a on are all free. */
  ghost predicate Run(cs: list, a: int, n: nat) {
    forall b :: a <= b < a + n ==> Free(cs, b)
  }

  /** The byte behind a chunk is never free. */
  lemma EndNotFree(cs: list, i: nat)
    requires Canonical(cs) && i < |cs|
    ensures !Free(cs, cs[i].End())
  {
    forall j | 0 <= j < |cs|
      ensures !cs[j].Has(cs[i].End())
    {
      assert i < j ==> cs[i].End() < cs[j].addr;
      assert j < i ==> cs[j].End() < cs[i].addr;
    }
  }

  /** Free bytes without a gap lie in one chunk. */
  lemma RunInChunk(cs: list, a: int, n: nat, i: nat)
    requires Canonical(cs) && Run(cs, a, n)
    requires i < |cs| && cs[i].Has(a)
    ensures a + n <= cs[i].End()
  {
    EndNotFree(cs, i);
  }

  /** The list with chunk i replaced by what is left of it after n bytes. */
  function Shrink(cs: list, i: nat, n: nat): list
    requires i < |cs| && n <= cs[i].size
  {
    if cs[i].size == n then cs[..i] + cs[i + 1..]
    else cs[..i] + [Chunk(cs[i].addr + n, cs[i].size - n)] + cs[i + 1..]
  }

  lemma ShrinkCanonical(cs: list, i: nat, n: nat)
    requires Canonical(cs) && i < |cs| && n <= cs[i].size && n > 0 && n % HEADER == 0
    ensures Canonical(Shrink(cs, i, n))
  {
    var t := Shrink(cs, i, n);
    if cs[i].size == n {
      assert forall k :: 0 <= k < |t| ==> t[k] == if k < i then cs[k] else cs[k + 1];
    } else {
      assert Proper(Chunk(cs[i].addr + n, cs[i].size - n)) by {
        assert Proper(cs[i]);
      }
      hide Proper;
      assert forall k :: 0 <= k < |t| && k != i ==> t[k] == cs[k];
    }
  }

  lemma TakeCanonical(cs: list, n: nat)
    requires Canonical(cs) && n > 0 && n % HEADER == 0
    ensures Canonical(Take(cs, n).1)
  {
    hide Fit, Canonical, Shrink;
    if Fit(cs, n) < |cs| {
      ShrinkCanonical(cs, Fit(cs, n), n);
    }
  }

  lemma ShrinkBytes(cs: list, i: nat, n: nat, b: int)
    requires Canonical(cs) && i < |cs| && 0 < n <= cs[i].size
    ensures Free(Shrink(cs, i, n), b) <==> Free(cs, b) && !(cs[i].addr <= b < cs[i].addr + n)
  {
    hide Free;
    var p, q, c := cs[..i], cs[i + 1..], cs[i];
    assert cs == p + [c] + q;
    FreeConcat(p + [c], q, b);
    FreeConcat(p, [c], b);
    FreeSingle(c, b);
    FreeConcat(p, q, b);
    var d := Chunk(c.addr + n, c.size - n);
    FreeConcat(p + [d], q, b);
    FreeConcat(p, [d], b);
    FreeSingle(d, b);
    if c.Has(b) {
      NotInOthers(cs, i, b);
    }
  }

  /** A byte of one chunk is in no other. */
  lemma NotInOthers(cs: list, i: nat, b: int)
    requires Canonical(cs) && i < |cs| && cs[i].Has(b)
    ensures !Free(cs[..i], b) && !Free(cs[i + 1..], b)
  {
    assert forall k :: 0 <= k < i ==> cs[k].End() < cs[i].addr;
    assert forall k :: i < k < |cs| ==> cs[i].End() < cs[k].addr;
  }

  /** Allocation takes exactly the bytes it returns out of the free set. */
  lemma TakeBytes(cs: list, n: nat)
    requires Canonical(cs) && n > 0 && Take(cs, n).0.Some?
    ensures var a := Take(cs, n).0.value;
            forall b: int :: Free(Take(cs, n).1, b) <==> Free(cs, b) && !(a <= b < a + n)
  {
    hide Fit, Free, Canonical, Shrink;
    var i := Fit(cs, n);
    forall b: int
      ensures Free(Take(cs, n).1, b) <==> Free(cs, b) && !(cs[i].addr <= b < cs[i].addr + n)
    {
      ShrinkBytes(cs, i, n, b);
    }
  }

  /** First fit is complete: it fails exactly when there is no run of n free bytes,
      and otherwise returns the lowest address at which one starts. */
  lemma TakeIsFirstFit(cs: list, n: nat)
    requires Canonical(cs) && n > 0
    ensures Take(cs, n).0 == None <==> !exists a: int :: Run(cs, a, n)
    ensures Take(cs, n).0.Some? ==>
              Run(cs, Take(cs, n).0.value, n) &&
              forall a: int :: Run(cs, a, n) ==> Take(cs, n).0.value <= a
  {
    hide Fit;
    var i := Fit(cs, n);
    if i < |cs| {
      forall b | cs[i].addr <= b < cs[i].addr + n
        ensures Free(cs, b)
      {
        assert cs[i].Has(b);
      }
      assert Run(cs, cs[i].addr, n);
    }
    forall a: int | Run(cs, a, n)
      ensures i < |cs| && cs[i].addr <= a
    {
      assert Free(cs, a);
      var k :| 0 <= k < |cs| && cs[k].Has(a);
      RunInChunk(cs, a, n, k);
      assert k >= i;
      if k > i {
        assert cs[i].End() < cs[k].addr;
      }
    }
  }

  // --------------------------------------------------------------- release

  /** How many chunks start below a. */
  function Before(cs: list, a: nat): (i: nat)
    ensures i <= |cs|
    ensures forall k :: 0 <= k < i ==> cs[k].addr < a
    ensures i < |cs| ==> cs[i].addr >= a
    decreases |cs|
  {
    if cs == [] then 0
    else if cs[0].addr >= a then 0
    else 1 + Before(cs[1..], a)
  }

  /** The block a..a+n in front of cs, joined with its first chunk if adjacent. */
  function JoinNext(cs: list, a: nat, n: nat): list {
    if cs != [] && a + n == cs[0].addr then [Chunk(a, n + cs[0].size)] + cs[1..] else [Chunk(a, n)] + cs
  }

  /** The chunks before the block, joined with it if adjacent. */
  function JoinPrev(left: list, right: list): list
    requires right != []
  {
    if left != [] && left[|left| - 1].End() == right[0].addr then
      left[..|left| - 1] + [Chunk(left[|left| - 1].addr, left[|left| - 1].size + right[0].size)] + right[1..]
    else left + right
  }

  /** Releasing n bytes at a. */
  function Put(cs: list, a: nat, n: nat): list {
    var i := Before(cs, a);
    JoinPrev(cs[..i], JoinNext(cs[i..], a, n))
  }

  /** a..a+n is an aligned block none of whose bytes is free. */
  ghost predicate Held(cs: list, a: nat, n: nat) {
    a >= HEADER && a % HEADER == 0 && n > 0 && n % HEADER == 0 &&
    forall b :: a <= b < a + n ==> !Free(cs, b)
  }

  /** A held block lies between its neighbours in the list. */
  lemma HeldBetween(cs: list, a: nat, n: nat)
    requires Canonical(cs) && Held(cs, a, n)
    ensures var i := Before(cs, a);
            (forall k :: 0 <= k < i ==> cs[k].End() <= a) &&
            (forall k :: i <= k < |cs| ==> a + n <= cs[k].addr)
  {
    hide Before;
    var i := Before(cs, a);
    assert !Free(cs, a);
    forall k | 0 <= k < i
      ensures cs[k].End() <= a
    {
      assert !cs[k].Has(a);
    }
    forall k | i <= k < |cs|
      ensures a + n <= cs[k].addr
    {
      assert i < k ==> cs[i].End() < cs[k].addr;
      assert Proper(cs[k]);
      assert cs[k].Has(cs[k].addr);
      assert Free(cs, cs[k].addr);
    }
  }

  lemma FreeConcat(xs: list, ys: list, b: int)
    ensures Free(xs + ys, b) <==> Free(xs, b) || Free(ys, b)
  {
    if Free(xs, b) {
      var i :| 0 <= i < |xs| && xs[i].Has(b);
      assert (xs + ys)[i].Has(b);
    }
    if Free(ys, b) {
      var i :| 0 <= i < |ys| && ys[i].Has(b);
      assert (xs + ys)[|xs| + i].Has(b);
    }
    if Free(xs + ys, b) {
      var i :| 0 <= i < |xs + ys| && (xs + ys)[i].Has(b);
      assert i < |xs| ==> xs[i].Has(b);
      assert i >= |xs| ==> ys[i - |xs|].Has(b);
    }
  }

  lemma FreeSingle(c: Chunk, b: int)
    ensures Free([c], b) <==> c.Has(b)
  {
    assert [c][0] == c;
  }

  lemma JoinNextBytes(cs: list, a: nat, n: nat, b: int)
    ensures Free(JoinNext(cs, a, n), b) <==> a <= b < a + n || Free(cs, b)
  {
    FreeSingle(Chunk(a, n), b);
    FreeConcat([Chunk(a, n)], cs, b);
    if cs != [] && a + n == cs[0].addr {
      FreeSingle(cs[0], b);
      FreeConcat([cs[0]], cs[1..], b);
      assert [cs[0]] + cs[1..] == cs;
      FreeSingle(Chunk(a, n + cs[0].size), b);
      FreeConcat([Chunk(a, n + cs[0].size)], cs[1..], b);
    }
  }

  lemma JoinPrevBytes(left: list, right: list, b: int)
    requires right != []
    ensures Free(JoinPrev(left, right), b) <==> Free(left, b) || Free(right, b)
  {
    hide Free;
    FreeConcat(left, right, b);
    if left != [] && left[|left| - 1].End() == right[0].addr {
      var p, q, c, d := left[..|left| - 1], right[1..], left[|left| - 1], right[0];
      var e := Chunk(c.addr, c.size + d.size);
      assert p + [c] == left && [d] + q == right;
      assert JoinPrev(left, right) == p + [e] + q;
      FreeConcat(p, [c], b);
      FreeConcat([d], q, b);
      FreeSingle(c, b);
      FreeSingle(d, b);
      FreeSingle(e, b);
      FreeConcat(p + [e], q, b);
      FreeConcat(p, [e], b);
    }
  }

  /** Releasing a block adds exactly its bytes to the free set. */
  lemma PutBytes(cs: list, a: nat, n: nat)
    ensures forall b: int :: Free(Put(cs, a, n), b) <==> Free(cs, b) || a <= b < a + n
  {
    var i := Before(cs, a);
    hide Before, Free, JoinNext, JoinPrev;
    forall b: int
      ensures Free(Put(cs, a, n), b) <==> Free(cs, b) || a <= b < a + n
    {
      JoinNextBytes(cs[i..], a, n, b);
      JoinNextNonempty(cs[i..], a, n);
      JoinPrevBytes(cs[..i], JoinNext(cs[i..], a, n), b);
      FreeConcat(cs[..i], cs[i..], b);
      assert cs[..i] + cs[i..] == cs;
    }
  }

  lemma JoinNextNonempty(cs: list, a: nat, n: nat)
    ensures JoinNext(cs, a, n) != []
  {
  }

  /** Releasing a held block keeps the list canonical. */
  lemma PutCanonical(cs: list, a: nat, n: nat)
    requires Canonical(cs) && Held(cs, a, n)
    ensures Canonical(Put(cs, a, n))
  {
    hide Before, Free;
    HeldBetween(cs, a, n);
    var i := Before(cs, a);
    JoinNextCanonical(cs[i..], a, n);
    JoinPrevCanonical(cs[..i], JoinNext(cs[i..], a, n));
  }

  lemma PutInFront(c: Chunk, cs: list)
    requires Canonical(cs) && Proper(c) && forall k :: 0 <= k < |cs| ==> c.End() < cs[k].addr
    ensures Canonical([c] + cs)
  {
    hide Proper;
    CanonicalAppend([c], cs);
  }

  lemma JoinNextCanonical(cs: list, a: nat, n: nat)
    requires Canonical(cs) && a >= HEADER && a % HEADER == 0 && n > 0 && n % HEADER == 0
    requires forall k :: 0 <= k < |cs| ==> a + n <= cs[k].addr
    ensures Canonical(JoinNext(cs, a, n)) && JoinNext(cs, a, n)[0].addr == a
  {
    if cs != [] && a + n == cs[0].addr {
      CanonicalTail(cs);
      PutInFront(Chunk(a, n + cs[0].size), cs[1..]);
    } else {
      assert forall k :: 1 <= k < |cs| ==> cs[0].End() < cs[k].addr;
      PutInFront(Chunk(a, n), cs);
    }
  }

  lemma JoinPrevCanonical(left: list, right: list)
    requires Canonical(left) && Canonical(right) && right != []
    requires forall k :: 0 <= k < |left| ==> left[k].End() <= right[0].addr
    ensures Canonical(JoinPrev(left, right))
  {
    hide Proper;
    var m := |left|;
    assert forall j :: 1 <= j < |right| ==> right[0].End() < right[j].addr;
    if left != [] {
      assert forall k :: 0 <= k < m - 1 ==> left[k].End() < left[m - 1].addr;
      if left[m - 1].End() == right[0].addr {
        JoinedCanonical(left[..m - 1], left[m - 1], right[0], right[1..]);
      } else {
        CanonicalAppend(left, right);
      }
    } else {
      assert left + right == right;
    }
  }

  lemma JoinedCanonical(p: list, c: Chunk, d: Chunk, q: list)
    requires Canonical(p) && Canonical(q) && Proper(c) && Proper(d) && c.End() == d.addr
    requires forall k :: 0 <= k < |p| ==> p[k].End() < c.addr
    requires forall k :: 0 <= k < |q| ==> d.End() < q[k].addr
    ensures Canonical(p + [Chunk(c.addr, c.size + d.size)] + q)
  {
    var e := Chunk(c.addr, c.size + d.size);
    assert Proper(e);
    hide Proper;
    CanonicalAppend([e], q);
    CanonicalAppend(p, [e] + q);
    assert p + [e] + q == p + ([e] + q);
  }

  lemma CanonicalAppend(xs: list, ys: list)
    requires Canonical(xs) && Canonical(ys)
    requires forall i, j :: 0 <= i < |xs| && 0 <= j < |ys| ==> xs[i].End() < ys[j].addr
    ensures Canonical(xs + ys)
  {
    hide Proper;
    var r, m := xs + ys, |xs|;
    assert forall k :: 0 <= k < m ==> r[k] == xs[k];
    assert forall k :: m <= k < |r| ==> r[k] == ys[k - m];
  }
}
