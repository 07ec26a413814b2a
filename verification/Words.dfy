/** Fixed-width machine integers of the RV32 target, written out over `int`:
    bytes, 32-bit unsigned words, 32-bit two's-complement cells, and their
    little-endian images in memory. */
module Words {

  const TWO31 := 0x8000_0000
  const TWO32 := 0x1_0000_0000

  type byte = x: int | 0 <= x < 256
  type word = x: int | 0 <= x < TWO32
  type cell = x: int | -TWO31 <= x < TWO31

  datatype Option<+T> = None | Some(value: T)

  /** A mathematical integer reduced to an unsigned 32-bit word. */
  function ToWord(x: int): word {
    x % TWO32
  }

  /** A mathematical integer reduced to a two's-complement 32-bit cell. */
  function ToCell(x: int): cell {
    var u := x % TWO32;
    if u < TWO31 then u else u - TWO32
  }

  /** c is x modulo 2^32, as a signed number. */
  predicate Wraps(c: cell, x: int) {
    -2147483648 <= c < 2147483648 && (x - c) % 4294967296 == 0
  }

  lemma ToCellWraps(x: int)
    ensures Wraps(ToCell(x), x)
  {
  }

  lemma WrapsOnly(c: cell, x: int)
    ensures Wraps(c, x) <==> c == ToCell(x)
  {
  }

  lemma CellWordInverse(c: cell)
    ensures ToCell(ToWord(c)) == c
  {
  }

  lemma WordCellInverse(w: word)
    ensures ToWord(ToCell(w)) == w
  {
  }

  /** Reducing a summand first changes nothing. */
  lemma ToWordAdd(x: int, y: int)
    ensures ToWord(ToWord(x) + y) == ToWord(x + y)
  {
  }

  /** Going through an unsigned word first changes nothing. */
  lemma CellOfWord(x: int)
    ensures ToCell(ToWord(x)) == ToCell(x)
  {
  }

  /** C's `/` on two's-complement cells: truncation toward zero, wrapped. */
  function DivTrunc(a: cell, b: cell): cell
    requires b != 0
  {
    var q := Abs(a) / Abs(b);
    ToCell(if (a < 0) == (b < 0) then q else -q)
  }

  /** C's `%`: the sign follows the dividend. */
  function ModTrunc(a: cell, b: cell): cell
    requires b != 0
  {
    var r := Abs(a) % Abs(b);
    ToCell(if a < 0 then -r else r)
  }

  function Abs(x: int): nat {
    if x < 0 then -x else x
  }

  /** Bitwise AND of the low n bits. */
  function AndBits(x: nat, y: nat, n: nat): (r: nat)
    ensures r <= x && r <= y
  {
    if n == 0 then 0
    else 2 * AndBits(x / 2, y / 2, n - 1) + (if x % 2 == 1 && y % 2 == 1 then 1 else 0)
  }

  function AndCell(a: cell, b: cell): cell {
    ToCell(AndBits(ToWord(a), ToWord(b), 32))
  }

  /** The n-byte little-endian image of a number. */
  function Le(x: nat, n: nat): (s: seq<byte>)
    ensures |s| == n
  {
    if n == 0 then [] else [x % 256] + Le(x / 256, n - 1)
  }

  /** The number a little-endian byte string stands for. */
  function FromLe(s: seq<byte>): nat {
    if s == [] then 0 else s[0] + 256 * FromLe(s[1..])
  }

  function Pow256(n: nat): nat {
    if n == 0 then 1 else 256 * Pow256(n - 1)
  }

  lemma {:induction false} FromLeLe(x: nat, n: nat)
    requires x < Pow256(n)
    ensures FromLe(Le(x, n)) == x
  {
    if n == 0 {
    } else {
      assert x / 256 < Pow256(n - 1);
      FromLeLe(x / 256, n - 1);
      assert Le(x, n)[1..] == Le(x / 256, n - 1);
    }
  }

  lemma LowByte(b: byte, t: nat)
    ensures (b + 256 * t) % 256 == b && (b + 256 * t) / 256 == t
  {
  }

  lemma {:induction false} LeFromLe(s: seq<byte>)
    ensures FromLe(s) < Pow256(|s|)
    ensures Le(FromLe(s), |s|) == s
  {
    if s == [] {
    } else {
      LeFromLe(s[1..]);
      LowByte(s[0], FromLe(s[1..]));
      assert s == [s[0]] + s[1..];
    }
  }

  lemma Pow256Four()
    ensures Pow256(4) == TWO32
  {
    assert Pow256(2) == 65536;
    assert Pow256(3) == 256 * Pow256(2);
  }

  /** The word stored in four bytes. */
  function WordAt(s: seq<byte>): (w: word)
    requires |s| == 4
  {
    LeFromLe(s);
    Pow256Four();
    FromLe(s)
  }

  lemma WordImage(s: seq<byte>)
    requires |s| == 4
    ensures Le(WordAt(s), 4) == s
  {
    LeFromLe(s);
  }

  lemma WordRoundTrip(w: word)
    ensures WordAt(Le(w, 4)) == w
  {
    Pow256Four();
    FromLeLe(w, 4);
  }

  /** The number four bytes stand for, the lowest first. */
  function Number(s: seq<byte>): int
    requires |s| == 4
  {
    var b0: int, b1: int, b2: int, b3: int := s[0], s[1], s[2], s[3];
    b0 + 256 * b1 + 65536 * b2 + 16777216 * b3
  }

  lemma NumberIs(s: seq<byte>)
    requires |s| == 4
    ensures WordAt(s) == Number(s)
  {
    var s1 := s[1..];
    var s2 := s1[1..];
    var s3 := s2[1..];
    assert FromLe(s3) == s[3] + 256 * FromLe([]) by { assert s3[1..] == []; }
    assert FromLe(s2) == s[2] + 256 * FromLe(s3);
    assert FromLe(s1) == s[1] + 256 * FromLe(s2);
  }

  lemma NumberRoundTrip(x: word)
    ensures Number(Le(x, 4)) == x
  {
    NumberIs(Le(x, 4));
    WordRoundTrip(x);
  }

  function Zeros(n: nat): (s: seq<byte>)
    ensures |s| == n
  {
    seq(n, i => 0)
  }

  /** d with the bytes bs stored from index a on. */
  function Write(d: seq<byte>, a: nat, bs: seq<byte>): (r: seq<byte>)
    requires a + |bs| <= |d|
    ensures |r| == |d|
    ensures forall i :: 0 <= i < |d| ==> r[i] == if a <= i < a + |bs| then bs[i - a] else d[i]
  {
    d[..a] + bs + d[a + |bs|..]
  }

  lemma WriteReads(d: seq<byte>, a: nat, bs: seq<byte>)
    requires a + |bs| <= |d|
    ensures Write(d, a, bs)[a..a + |bs|] == bs
    ensures Write(d, a, bs)[..a] == d[..a]
    ensures Write(d, a, bs)[a + |bs|..] == d[a + |bs|..]
  {
  }
}
