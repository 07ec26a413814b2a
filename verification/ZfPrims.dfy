/** What zForth's stack primitives compute, in integers: each word by the name it is typed
    with after booting, on every stack (boot/zforth/zforth.c). */
module ZfPrims {
  import opened Words
  import opened Divisibility
  import opened Numbers
  import opened ZfCells
  import opened ZfDictionary
  import opened ZfMachine
  import opened ZfEval
  import opened ZfCompile
  import opened ZfBootstrap
  import opened ZfWords

  // ------------------------------------------------------------- arithmetic

  lemma TopTwo(ds: stack, rest: seq<cell>, b: cell, a: cell)
    requires ds == rest + [b, a]
    ensures Top(ds) == a && Below(ds) == rest + [b] && Top(Below(ds)) == b && Below(Below(ds)) == rest
  {
  }

  lemma PlusOn(rest: seq<cell>, b: cell, a: cell)
    requires |rest| <= 30
    ensures RunStackPrim(5, rest + [b, a]) == Ok(rest + [ToCell(a + b)])
  {
    hide ToCell, DivTrunc, ModTrunc, AndCell, Top, Below;
    TopTwo(rest + [b, a], rest, b, a);
  }

  /** `+` leaves the sum. */
  lemma Plus(rest: seq<cell>, b: cell, a: cell, c: cell)
    requires Wraps(c, b + a)
    ensures Takes([43], rest + [b, a], rest + [c])
  {
    hide Takes, Refuses, WordName, RunStackPrim, ToCell, Wraps;
    WrapsOnly(c, a + b);
    if |rest| <= 30 {
      PlusOn(rest, b, a);
    }
    PlusName();
    PrimTakes([43], 5, rest + [b, a], rest + [c]);
  }

  lemma MinusOn(rest: seq<cell>, b: cell, a: cell)
    requires |rest| <= 30
    ensures RunStackPrim(6, rest + [b, a]) == Ok(rest + [ToCell(b - a)])
  {
    hide ToCell, DivTrunc, ModTrunc, AndCell, Top, Below;
    TopTwo(rest + [b, a], rest, b, a);
  }

  /** `-` takes the top of the stack from what is below it. */
  lemma Minus(rest: seq<cell>, b: cell, a: cell, c: cell)
    requires Wraps(c, b - a)
    ensures Takes([45], rest + [b, a], rest + [c])
  {
    hide Takes, Refuses, WordName, RunStackPrim, ToCell, Wraps;
    WrapsOnly(c, b - a);
    if |rest| <= 30 {
      MinusOn(rest, b, a);
    }
    MinusName();
    PrimTakes([45], 6, rest + [b, a], rest + [c]);
  }

  lemma TimesOn(rest: seq<cell>, b: cell, a: cell)
    requires |rest| <= 30
    ensures RunStackPrim(7, rest + [b, a]) == Ok(rest + [ToCell(a * b)])
  {
    hide ToCell, DivTrunc, ModTrunc, AndCell, Top, Below;
    TopTwo(rest + [b, a], rest, b, a);
  }

  /** `*` leaves the product. */
  lemma Times(rest: seq<cell>, b: cell, a: cell, c: cell)
    requires Wraps(c, b * a)
    ensures Takes([42], rest + [b, a], rest + [c])
  {
    hide Takes, Refuses, WordName, RunStackPrim, ToCell, Wraps;
    WrapsOnly(c, a * b);
    if |rest| <= 30 {
      TimesOn(rest, b, a);
    }
    TimesName();
    PrimTakes([42], 7, rest + [b, a], rest + [c]);
  }

  /** x is y times q and r left over: q rounded towards zero, r with the sign of x. */
  predicate Divides(x: int, y: int, q: int, r: int) {
    x == y * q + r && (if y < 0 then y < r < -y else -y < r < y) && (r > 0 ==> x > 0) && (r < 0 ==> x < 0)
  }

  lemma DivisionTruncates(b: cell, a: cell) returns (q: int, r: int)
    requires a != 0
    ensures Divides(b, a, q, r) && Wraps(DivTrunc(b, a), q) && ModTrunc(b, a) == r
  {
    hide ToCell, Wraps, Divides;
    var d, e := Abs(b) / Abs(a), Abs(b) % Abs(a);
    MagnitudesDivide(b, a, d, e);
    q := if (b < 0) == (a < 0) then d else -d;
    r := if b < 0 then -e else e;
    SignedParts(b, a, d, e);
    ToCellWraps(q);
    RemainderFits(b, a, e);
  }

  lemma MagnitudesDivide(b: int, a: int, d: int, e: int)
    requires a != 0 && d == Abs(b) / Abs(a) && e == Abs(b) % Abs(a)
    ensures Abs(a) != 0 && Abs(b) == Abs(a) * d + e && 0 <= e < Abs(a) && Abs(a) * d >= 0
  {
    var x: nat, y: nat := Abs(b), Abs(a);
    DivMod(x, y);
    if d < 0 {
      Grow(y, d, -1);
    } else {
      Grow(y, 0, d);
    }
  }

  lemma Negated(a: int, d: int)
    ensures a * -d == -(a * d) == (-a) * d
  {
  }

  lemma SignedParts(b: int, a: int, d: int, e: int)
    requires a != 0 && Abs(b) == Abs(a) * d + e && 0 <= e < Abs(a) && Abs(a) * d >= 0
    ensures Divides(b, a, if (b < 0) == (a < 0) then d else -d, if b < 0 then -e else e)
  {
    Negated(a, d);
  }

  lemma RemainderFits(b: cell, a: cell, e: int)
    requires 0 <= e < Abs(a) && e <= Abs(b)
    ensures ToCell(if b < 0 then -e else e) == if b < 0 then -e else e
  {
  }

  lemma QuotientOn(rest: seq<cell>, b: cell, a: cell)
    requires |rest| <= 30 && a != 0
    ensures RunStackPrim(8, rest + [b, a]) == Ok(rest + [DivTrunc(b, a)])
  {
    hide ToCell, DivTrunc, ModTrunc, AndCell, Top, Below;
    TopTwo(rest + [b, a], rest, b, a);
  }

  /** `/` leaves the quotient rounded towards zero. */
  lemma Quotient(rest: seq<cell>, b: cell, a: cell)
    requires a != 0
    ensures exists q: int, r: int, c: cell ::
              Divides(b, a, q, r) && Wraps(c, q) && Takes([47], rest + [b, a], rest + [c])
  {
    hide Takes, Refuses, WordName, RunStackPrim, DivTrunc, ModTrunc, Wraps, Divides;
    var c := DivTrunc(b, a);
    var q, r := DivisionTruncates(b, a);
    if |rest| <= 30 {
      QuotientOn(rest, b, a);
    }
    QuotientName();
    PrimTakes([47], 8, rest + [b, a], rest + [c]);
  }

  lemma RemainderOn(rest: seq<cell>, b: cell, a: cell)
    requires |rest| <= 30 && a != 0
    ensures RunStackPrim(9, rest + [b, a]) == Ok(rest + [ModTrunc(b, a)])
  {
    hide ToCell, DivTrunc, ModTrunc, AndCell, Top, Below;
    TopTwo(rest + [b, a], rest, b, a);
  }

  /** `%` leaves what is left over. */
  lemma Remainder(rest: seq<cell>, b: cell, a: cell)
    requires a != 0
    ensures exists q: int, c: cell :: Divides(b, a, q, c) && Takes([37], rest + [b, a], rest + [c])
  {
    hide Takes, Refuses, WordName, RunStackPrim, DivTrunc, ModTrunc, Wraps, Divides;
    var c := ModTrunc(b, a);
    var q, r := DivisionTruncates(b, a);
    if |rest| <= 30 {
      RemainderOn(rest, b, a);
    }
    RemainderName();
    PrimTakes([37], 9, rest + [b, a], rest + [c]);
  }

  lemma EqualsOn(rest: seq<cell>, b: cell, a: cell)
    requires |rest| <= 30
    ensures RunStackPrim(24, rest + [b, a]) == Ok(rest + [if a == b then 1 else 0])
  {
    hide ToCell, DivTrunc, ModTrunc, AndCell, Top, Below;
    TopTwo(rest + [b, a], rest, b, a);
  }

  /** `=` leaves 1 for equal cells and 0 otherwise. */
  lemma Equals(rest: seq<cell>, b: cell, a: cell)
    ensures Takes([61], rest + [b, a], rest + [if a == b then 1 else 0])
  {
    hide Takes, Refuses, WordName, RunStackPrim, ToCell, Wraps;
    var c := if a == b then 1 else 0;
    if |rest| <= 30 {
      EqualsOn(rest, b, a);
    }
    EqualsName();
    PrimTakes([61], 24, rest + [b, a], rest + [c]);
  }

  /** The i-th binary digit of x, in two's complement. */
  function Bit(x: int, i: nat): int
    decreases i
  {
    if i == 0 then x % 2 else Bit(x / 2, i - 1)
  }

  lemma {:induction false} AndBit(x: nat, y: nat, n: nat, i: nat)
    requires i < n
    ensures Bit(AndBits(x, y, n), i) == 1 <==> Bit(x, i) == 1 && Bit(y, i) == 1
    decreases n
  {
    var low := if x % 2 == 1 && y % 2 == 1 then 1 else 0;
    var high := AndBits(x / 2, y / 2, n - 1);
    DivModUnique(AndBits(x, y, n), 2, high, low);
    if i > 0 {
      AndBit(x / 2, y / 2, n - 1, i - 1);
    }
  }

  /** Adding a higher power of two changes no lower digit. */
  lemma {:induction false} BitShift(x: int, k: nat, i: nat)
    requires i < k
    ensures Bit(x + Power(k), i) == Bit(x, i)
    decreases i
  {
    var p := Power(k - 1);
    assert Power(k) == 2 * p;
    DivMod(x, 2);
    DivModUnique(x + 2 * p, 2, x / 2 + p, x % 2);
    if i > 0 {
      BitShift(x / 2, k - 1, i - 1);
    }
  }

  function Power(k: nat): nat {
    if k == 0 then 1 else 2 * Power(k - 1)
  }

  lemma PowerThirtyTwo()
    ensures Power(32) == TWO32
  {
    assert Power(8) == 256;
    assert Power(16) == 65536;
    assert Power(24) == 0x100_0000;
  }

  /** The digits of a cell are those of its unsigned form. */
  lemma UnsignedBit(c: cell, i: nat)
    requires i < 32
    ensures Bit(ToWord(c), i) == Bit(c, i)
  {
    hide Bit, Power;
    PowerThirtyTwo();
    if c < 0 {
      BitShift(c, 32, i);
    }
  }

  /** c is the bitwise and of a and b. */
  ghost predicate BitwiseAnd(c: cell, b: cell, a: cell) {
    forall i: nat :: i < 32 ==> (Bit(c, i) == 1 <==> Bit(b, i) == 1 && Bit(a, i) == 1)
  }

  lemma AndIsBitwise(b: cell, a: cell)
    ensures BitwiseAnd(AndCell(a, b), b, a)
  {
    hide Bit, AndBits;
    var x: nat := AndBits(ToWord(a), ToWord(b), 32);
    forall i: nat | i < 32
      ensures Bit(AndCell(a, b), i) == 1 <==> Bit(b, i) == 1 && Bit(a, i) == 1
    {
      AndBit(ToWord(a), ToWord(b), 32, i);
      UnsignedBit(a, i);
      UnsignedBit(b, i);
      WordCellInverse(x);
      UnsignedBit(AndCell(a, b), i);
    }
  }

  lemma AndOn(rest: seq<cell>, b: cell, a: cell)
    requires |rest| <= 30
    ensures RunStackPrim(31, rest + [b, a]) == Ok(rest + [AndCell(a, b)])
  {
    hide ToCell, DivTrunc, ModTrunc, AndCell, Top, Below;
    TopTwo(rest + [b, a], rest, b, a);
  }

  /** `&` leaves the bitwise and. */
  lemma And(rest: seq<cell>, b: cell, a: cell)
    ensures exists c: cell :: BitwiseAnd(c, b, a) && Takes([38], rest + [b, a], rest + [c])
  {
    hide Takes, Refuses, WordName, RunStackPrim, AndCell, BitwiseAnd;
    var c := AndCell(a, b);
    AndIsBitwise(b, a);
    if |rest| <= 30 {
      AndOn(rest, b, a);
    }
    AndName();
    PrimTakes([38], 31, rest + [b, a], rest + [c]);
  }

  lemma SwapOn(rest: seq<cell>, b: cell, a: cell)
    requires |rest| <= 30
    ensures RunStackPrim(16, rest + [b, a]) == Ok(rest + [a, b])
  {
    hide ToCell, DivTrunc, ModTrunc, AndCell, Top, Below;
    TopTwo(rest + [b, a], rest, b, a);
  }

  /** `swap` exchanges two cells. */
  lemma Swap(rest: seq<cell>, b: cell, a: cell)
    ensures Takes([115, 119, 97, 112], rest + [b, a], rest + [a, b])
  {
    hide Takes, Refuses, WordName, RunStackPrim;
    if |rest| <= 30 {
      SwapOn(rest, b, a);
    }
    SwapName();
    PrimTakes([115, 119, 97, 112], 16, rest + [b, a], rest + [a, b]);
  }

  lemma RotOn(rest: seq<cell>, c: cell, b: cell, a: cell)
    requires |rest| <= 29
    ensures RunStackPrim(17, rest + [c, b, a]) == Ok(rest + [b, a, c])
  {
    var ds: stack := rest + [c, b, a];
    assert Below(ds) == rest + [c, b];
    assert Below(Below(ds)) == rest + [c];
    assert Below(Below(Below(ds))) == rest;
  }

  /** `rot` brings the third cell to the top. */
  lemma Rot(rest: seq<cell>, c: cell, b: cell, a: cell)
    ensures Takes([114, 111, 116], rest + [c, b, a], rest + [b, a, c])
  {
    hide Takes, Refuses, WordName, RunStackPrim;
    if |rest| <= 29 {
      RotOn(rest, c, b, a);
    }
    RotName();
    PrimTakes([114, 111, 116], 17, rest + [c, b, a], rest + [b, a, c]);
  }

  lemma NegativeOn(rest: seq<cell>, a: cell)
    requires |rest| <= 31
    ensures RunStackPrim(2, rest + [a]) == Ok(rest + [if a < 0 then 1 else 0])
  {
    assert Below(rest + [a]) == rest;
  }

  /** `<0` leaves 1 for a negative cell and 0 otherwise. */
  lemma Negative(rest: seq<cell>, a: cell)
    ensures Takes([60, 48], rest + [a], rest + [if a < 0 then 1 else 0])
  {
    hide Takes, Refuses, WordName, RunStackPrim;
    if |rest| <= 31 {
      NegativeOn(rest, a);
    }
    NegativeName();
    PrimTakes([60, 48], 2, rest + [a], rest + [if a < 0 then 1 else 0]);
  }

  lemma DropOn(rest: seq<cell>, a: cell)
    requires |rest| <= 31
    ensures RunStackPrim(10, rest + [a]) == Ok(rest)
  {
    assert Below(rest + [a]) == rest;
  }

  /** `drop` takes a cell away. */
  lemma Drop(rest: seq<cell>, a: cell)
    ensures Takes([100, 114, 111, 112], rest + [a], rest)
  {
    hide Takes, Refuses, WordName, RunStackPrim;
    if |rest| <= 31 {
      DropOn(rest, a);
    }
    DropName();
    PrimTakes([100, 114, 111, 112], 10, rest + [a], rest);
  }

  lemma DupOn(rest: seq<cell>, a: cell)
    requires |rest| <= 31
    ensures RunStackPrim(11, rest + [a]) == if |rest| < 31 then Ok(rest + [a, a]) else Fail(DSTACK_OVERRUN)
  {
    assert Below(rest + [a]) == rest;
    assert rest + [a] + [a] == rest + [a, a];
  }

  /** `dup` copies it, unless there are 32 cells already. */
  lemma Dup(rest: seq<cell>, a: cell)
    ensures |rest| < 31 ==> Takes([100, 117, 112], rest + [a], rest + [a, a])
    ensures |rest| == 31 ==> Refuses([100, 117, 112], rest + [a], DSTACK_OVERRUN)
  {
    hide Takes, Refuses, WordName, RunStackPrim;
    DupName();
    if |rest| <= 31 {
      DupOn(rest, a);
    }
    if |rest| < 31 {
      PrimTakes([100, 117, 112], 11, rest + [a], rest + [a, a]);
    } else if |rest| == 31 {
      PrimRefuses([100, 117, 112], 11, rest + [a], DSTACK_OVERRUN);
    }
  }

  lemma PickOn(rest: seq<cell>, a: cell)
    requires |rest| <= 31
    ensures RunStackPrim(26, rest + [a]) ==
            if 0 <= a < |rest| then Ok(rest + [rest[|rest| - 1 - a]]) else Fail(DSTACK_UNDERRUN)
  {
    assert Below(rest + [a]) == rest;
  }

  /** `pick` copies the a-th cell below it, counted from 0. */
  lemma Pick(rest: seq<cell>, a: cell)
    ensures 0 <= a < |rest| ==> Takes([112, 105, 99, 107], rest + [a], rest + [rest[|rest| - 1 - a]])
    ensures !(0 <= a < |rest|) ==> Refuses([112, 105, 99, 107], rest + [a], DSTACK_UNDERRUN)
  {
    hide Takes, Refuses, WordName, RunStackPrim;
    PickName();
    if |rest| <= 31 {
      PickOn(rest, a);
    }
    if 0 <= a < |rest| {
      PrimTakes([112, 105, 99, 107], 26, rest + [a], rest + [rest[|rest| - 1 - a]]);
    } else {
      PrimRefuses([112, 105, 99, 107], 26, rest + [a], DSTACK_UNDERRUN);
    }
  }

  lemma ZeroOn(rest: seq<cell>)
    requires |rest| <= 31
    ensures RunStackPrim(8, rest + [0]) == Fail(DIVISION_BY_ZERO) == RunStackPrim(9, rest + [0])
  {
  }

  /** A zero on top stops a division, whatever is below it, even nothing. */
  lemma ZeroDivides(rest: seq<cell>)
    ensures Refuses([47], rest + [0], DIVISION_BY_ZERO) && Refuses([37], rest + [0], DIVISION_BY_ZERO)
  {
    hide Takes, Refuses, WordName, RunStackPrim;
    QuotientName();
    RemainderName();
    if |rest| <= 31 {
      ZeroOn(rest);
    }
    PrimRefuses([47], 8, rest + [0], DIVISION_BY_ZERO);
    PrimRefuses([37], 9, rest + [0], DIVISION_BY_ZERO);
  }

  /** How many cells the operation number op takes off the stack. */
  function Operands(op: nat): nat {
    if op in {2, 10, 11, 26} then 1 else if op == 17 then 3 else 2
  }

  /** Each of these words needs its cells; a zero divisor is noticed first. */
  lemma TooFew(op: nat, ds: seq<cell>)
    requires op in {2, 5, 6, 7, 8, 9, 10, 11, 16, 17, 24, 26, 31} && |ds| < Operands(op)
    requires op in {8, 9} && ds != [] ==> ds[0] != 0
    ensures Refuses(WordName(op), ds, DSTACK_UNDERRUN)
  {
    hide Takes, Refuses, WordName, DivTrunc, ModTrunc, AndCell, ToCell;
    PrimRefuses(WordName(op), op, ds, DSTACK_UNDERRUN);
  }

  // --------------------------------------------------------------- example

  lemma StaysBooted(m: machine, m1: machine)
    requires Booted(m) && m1.dict == m.dict && m1.input == INTERPRET
    ensures Booted(m1)
  {
    hide Var, Bootstrap, Init;
    var d, trace, first :| first == 0 && BootedFrom(m, d, trace, first);
    assert BootedFrom(m1, d, trace, first);
  }

  /** Typing one word and going on. */
  lemma OneWord(m: machine, s: name, after: stack, fuel: nat) returns (m1: machine)
    requires WellFormed(m.dict) && Takes(s, m.ds, after) && fuel >= 4 && Booted(m)
    ensures WellFormed(m1.dict) && m1.ds == after && m1.input == INTERPRET && HandleWord(m, s, fuel) == Next(m1)
    ensures Booted(m1)
  {
    hide Booted, WellFormed, Handle, HandleWord, Present, Var;
    BootedIdle(m);
    assert LeavesIn(m, s, after, fuel);
    HandleIsHandleWord(m, s, fuel);
    m1 := Handle(m, s, fuel).m;
    StaysBooted(m, m1);
  }

  lemma DigitWord(d: nat, before: seq<cell>)
    requires 1 <= d < 10 && |before| < 32
    ensures Takes([48 + d], before, before + [d])
  {
    hide Takes, StrtolOf, Booted;
    LowerChars(d);
    hide LOWER, UPPER;
    var s: seq<byte> := [48 + d];
    assert Spells(s, [d]);
    assert Horner([d], 10) == d by { assert [d][..0] == []; }
    assert [] + [] + s == s;
    NumberTakes([], [], s, [d], 10, before);
  }

  lemma SplitLetter(c: byte, rest: seq<byte>)
    requires c > 32
    ensures Split([], [c] + rest) == Split([c], rest)
  {
    SpaceBytes(c);
    assert [] + [c] == [c];
  }

  lemma SplitSpace(buf: name, rest: seq<byte>)
    ensures Split(buf, [32] + rest) == [buf] + Split([], rest)
  {
    SpaceBytes(32);
  }

  lemma LastSplits()
    ensures Split([], [45]) == [[45]]
  {
    SpaceBytes(45);
    assert Split([45], []) == [[45]];
    assert [] + [45] == [45] && [45][1..] == [];
  }

  lemma TextSplits()
    ensures Split([], [53, 32, 51, 32, 45]) == [[53], [51], [45]]
  {
    hide Split;
    var t1 := [45];
    var t2 := [32] + t1;
    var t3 := [51] + t2;
    var t4 := [32] + t3;
    LastSplits();
    SplitSpace([51], t1);
    SplitLetter(51, t2);
    SplitSpace([53], t3);
    SplitLetter(53, t4);
    assert [53] + t4 == [53, 32, 51, 32, 45];
  }

  /** The text `5 3 -` leaves 2. */
  lemma Subtraction(m: machine, fuel: nat)
    requires Booted(m) && m.ds == [] && fuel >= 4
    ensures var r := Eval(Session(m, []), [53, 32, 51, 32, 45], fuel);
            r.Evaluated? && r.s.m.ds == [2] && r.s.buf == []
  {
    hide Booted, Takes, HandleWord, WellFormed, Split, Eval, Wraps, Var, Present;
    BootedIdle(m);
    DigitWord(5, []);
    DigitWord(3, [5]);
    SmallDifference();
    Minus([], 5, 3, 2);
    assert [] + [5, 3] == [5] + [3] == [5, 3] && [] + [5] == [5] && [] + [2] == [2];
    var m1 := OneWord(m, [53], [5], fuel);
    var m2 := OneWord(m1, [51], [5, 3], fuel);
    var m3 := OneWord(m2, [45], [2], fuel);
    ThreeWords(m, m1, m2, m3, [53], [51], [45], fuel);
    TextSplits();
    EvalText(m, [], [53, 32, 51, 32, 45], fuel);
  }

  lemma SmallDifference()
    ensures Wraps(2, 5 - 3)
  {
  }

  lemma ThreeWords(m: machine, m1: machine, m2: machine, m3: machine, r: name, s: name, t: name, fuel: nat)
    requires WellFormed(m.dict) && HandleWord(m, r, fuel) == Next(m1)
    requires WellFormed(m1.dict) && m1.input == INTERPRET && HandleWord(m1, s, fuel) == Next(m2)
    requires WellFormed(m2.dict) && m2.input == INTERPRET && HandleWord(m2, t, fuel) == Next(m3)
    requires WellFormed(m3.dict) && m3.input == INTERPRET
    ensures HandleWords(m, [r, s, t], fuel) == Next(m3)
  {
    hide HandleWord, WellFormed;
    assert [r, s, t][1..] == [s, t] && [s, t][1..] == [t] && [t][1..] == [];
    assert HandleWords(m2, [t], fuel) == Next(m3);
    assert HandleWords(m1, [s, t], fuel) == Next(m3);
  }
}
