/** zForth's variable-length cells and the bounds-checked byte accesses under them
    (boot/zforth/zforth.c), as functions of the 4096 dictionary bytes. */
module ZfCells {
  import opened Words

  const DICT_SIZE: nat := 4096

  type dict = d: seq<byte> | |d| == DICT_SIZE witness seq(DICT_SIZE, _ => 0)

  /** What reading a cell gives: its value and encoded length, or an abort because
      the bytes to fetch are not inside the dictionary. */
  datatype Fetch = Got(value: cell, size: nat) | Outside

  /** A store either completes or aborts, possibly after part of it was written. */
  datatype Store = Stored(d: dict, size: nat) | Overrun(d: dict)

  /** Reading starts with two bytes whatever the length turns out to be. */
  function GetCell(d: dict, a: nat): (r: Fetch)
    ensures r.Got? ==> 1 <= r.size <= 5 && a + r.size < DICT_SIZE
  {
    if a >= DICT_SIZE - 2 then Outside
    else if d[a] < 128 then Got(d[a], 1)
    else if d[a] == 255 then
      if a + 1 >= DICT_SIZE - 4 then Outside else Got(ToCell(WordAt(d[a + 1..a + 5])), 5)
    else
      var hi: int, lo: int := d[a], d[a + 1];
      Got(hi % 64 * 256 + lo, 2)
  }

  function Encode(v: cell): (bs: seq<byte>)
    ensures 1 <= |bs| <= 5
  {
    var u := ToWord(v);
    if u < 128 then [u]
    else if u < 16384 then [128 + u / 256, u % 256]
    else [255] + Le(u, 4)
  }

  lemma SmallCell(v: cell)
    requires 0 <= v < 128
    ensures Encode(v) == [v]
  {
  }

  /** A bounds-checked store; the last dictionary byte is never reachable. */
  function PutBytes(d: dict, a: nat, bs: seq<byte>): Store
    requires |bs| < DICT_SIZE
  {
    if a < DICT_SIZE - |bs| then Stored(Write(d, a, bs), |bs|) else Overrun(d)
  }

  /** The five-byte form is stored as a marker and then the raw cell, so it can
      abort half-way. */
  function PutCell(d: dict, a: nat, v: cell): Store {
    var bs := Encode(v);
    if |bs| < 5 then PutBytes(d, a, bs)
    else
      match PutBytes(d, a, bs[..1])
      case Overrun(d1) => Overrun(d1)
      case Stored(d1, _) =>
        match PutBytes(d1, a + 1, bs[1..])
        case Overrun(d2) => Overrun(d2)
        case Stored(d2, _) => Stored(d2, 5)
  }

  /** A completed store has put exactly the encoding; an aborted one changed at
      most the first byte it was given. */
  lemma PutCellIsWrite(d: dict, a: nat, v: cell)
    ensures PutCell(d, a, v).Stored? <==> a + |Encode(v)| < DICT_SIZE
    ensures PutCell(d, a, v).Stored? ==>
              PutCell(d, a, v) == Stored(Write(d, a, Encode(v)), |Encode(v)|)
    ensures forall i :: 0 <= i < DICT_SIZE && i != a && PutCell(d, a, v).Overrun? ==>
              PutCell(d, a, v).d[i] == d[i]
  {
    var bs := Encode(v);
    if |bs| == 5 && a + 5 < DICT_SIZE {
      var d1 := Write(d, a, bs[..1]);
      assert Write(d1, a + 1, bs[1..]) == Write(d, a, bs);
    }
  }

  /** A stored cell reads back with its value and length. */
  lemma GetEncoded(d: dict, a: nat, v: cell)
    requires a + |Encode(v)| <= DICT_SIZE
    requires d[a..a + |Encode(v)|] == Encode(v)
    requires a < DICT_SIZE - 2 && a + |Encode(v)| < DICT_SIZE
    ensures GetCell(d, a) == Got(v, |Encode(v)|)
  {
    var u := ToWord(v);
    var bs := Encode(v);
    CellWordInverse(v);
    assert forall i :: 0 <= i < |bs| ==> d[a + i] == d[a..a + |bs|][i] == bs[i];
    assert d[a] == d[a + 0] == bs[0];
    if u < 128 {
    } else if u < 16384 {
      assert d[a + 1] == bs[1];
    } else {
      assert d[a + 1..a + 5] == bs[1..] == Le(u, 4);
      WordRoundTrip(u);
    }
  }

  /** Reading a cell looks at no byte after the cell's own last byte. */
  lemma GetCellFrame(d: dict, e: dict, a: nat, lim: nat)
    requires GetCell(d, a).Got? && a + GetCell(d, a).size <= lim <= DICT_SIZE
    requires forall i :: a <= i < lim ==> e[i] == d[i]
    ensures GetCell(e, a) == GetCell(d, a)
  {
    if d[a] == 255 {
      assert e[a + 1..a + 5] == d[a + 1..a + 5];
    }
  }

  /** No encoding is a proper prefix of another. */
  lemma EncodePrefixFree(u: cell, v: cell)
    requires Encode(u) <= Encode(v)
    ensures u == v
  {
    var bs := Encode(u);
    assert forall i :: 0 <= i < |bs| ==> bs[i] == Encode(v)[i];
    assert bs[0] == Encode(v)[0];
    CellWordInverse(u);
    CellWordInverse(v);
    if ToWord(u) >= 16384 {
      assert Encode(u)[1..] == Le(ToWord(u), 4);
      assert Encode(v)[1..] == Le(ToWord(v), 4);
      assert Encode(v)[1..] == Encode(u)[1..];
      WordRoundTrip(ToWord(u));
      WordRoundTrip(ToWord(v));
    } else if ToWord(u) >= 128 {
      assert bs[1] == Encode(v)[1];
    }
  }

  function PutCells(d: dict, a: nat, vs: seq<cell>): Store
    decreases |vs|
  {
    if vs == [] then Stored(d, 0)
    else
      match PutCell(d, a, vs[0])
      case Overrun(d1) => Overrun(d1)
      case Stored(d1, n) =>
        match PutCells(d1, a + n, vs[1..])
        case Overrun(d2) => Overrun(d2)
        case Stored(d2, m) => Stored(d2, n + m)
  }

  /** Reads n consecutive cells with their lengths; None when one aborts. */
  function GetCells(d: dict, a: nat, n: nat): Option<seq<(cell, nat)>>
    decreases n
  {
    if n == 0 then Some([])
    else
      match GetCell(d, a)
      case Outside => None
      case Got(v, k) =>
        match GetCells(d, a + k, n - 1)
        case None => None
        case Some(rest) => Some([(v, k)] + rest)
  }

  /** Where the last of the cells vs starts when they are stored from a. */
  function LastStart(a: nat, vs: seq<cell>): nat
    requires vs != []
    decreases |vs|
  {
    if |vs| == 1 then a else LastStart(a + |Encode(vs[0])|, vs[1..])
  }

  function WithLengths(vs: seq<cell>): seq<(cell, nat)> {
    if vs == [] then [] else [(vs[0], |Encode(vs[0])|)] + WithLengths(vs[1..])
  }

  lemma {:induction false} PutCellsFrame(d: dict, a: nat, vs: seq<cell>)
    ensures forall i :: 0 <= i < a && i < DICT_SIZE ==> PutCells(d, a, vs).d[i] == d[i]
    ensures PutCells(d, a, vs).Stored? ==> vs == [] || a + PutCells(d, a, vs).size < DICT_SIZE
    decreases |vs|
  {
    if vs != [] {
      PutCellIsWrite(d, a, vs[0]);
      match PutCell(d, a, vs[0])
      case Overrun(d1) =>
      case Stored(d1, n) => PutCellsFrame(d1, a + n, vs[1..]);
    }
  }

  /** Codec round trip: cells stored one after another read back as the same list
      with the same lengths exactly when the last of them starts where the
      two-byte fetch is still in bounds. */
  lemma {:induction false} CellsRoundTrip(d: dict, a: nat, vs: seq<cell>)
    requires PutCells(d, a, vs).Stored? && vs != []
    ensures LastStart(a, vs) < DICT_SIZE - 2 <==>
              GetCells(PutCells(d, a, vs).d, a, |vs|) == Some(WithLengths(vs))
    ensures LastStart(a, vs) >= DICT_SIZE - 2 ==> GetCells(PutCells(d, a, vs).d, a, |vs|) == None
    decreases |vs|
  {
    hide Encode, PutCell, GetCell, PutCells, GetCells;
    GetNone(PutCells(d, a, vs).d, a + |Encode(vs[0])|);
    GetNone(PutCells(d, a, vs).d, a);
    var v, n := vs[0], |Encode(vs[0])|;
    var e := PutCells(d, a, vs).d;
    var d1 := PutCellsCons(d, a, vs);
    LastStartAfter(a, vs);
    if a < DICT_SIZE - 2 {
      FirstReads(d1, a, v, vs[1..]);
      if |vs| > 1 {
        CellsRoundTrip(d1, a + n, vs[1..]);
      }
      GetCellsCons(e, a, v, n, |vs| - 1);
    }
  }

  lemma GetNone(e: dict, a: nat)
    ensures GetCells(e, a, 0) == Some([])
    ensures a >= DICT_SIZE - 2 ==> forall n: nat :: n > 0 ==> GetCells(e, a, n) == None
  {
  }

  lemma PutCellsCons(d: dict, a: nat, vs: seq<cell>) returns (d1: dict)
    requires vs != [] && PutCells(d, a, vs).Stored?
    ensures d1[..] == Write(d, a, Encode(vs[0])) && a + |Encode(vs[0])| < DICT_SIZE
    ensures d1[a..a + |Encode(vs[0])|] == Encode(vs[0])
    ensures PutCells(d1, a + |Encode(vs[0])|, vs[1..]).Stored?
    ensures PutCells(d1, a + |Encode(vs[0])|, vs[1..]).d == PutCells(d, a, vs).d
  {
    PutCellIsWrite(d, a, vs[0]);
    d1 := PutCell(d, a, vs[0]).d;
  }

  lemma GetCellsCons(e: dict, a: nat, v: cell, n: nat, m: nat)
    requires GetCell(e, a) == Got(v, n)
    ensures GetCells(e, a + n, m) == None ==> GetCells(e, a, m + 1) == None
    ensures forall rest :: GetCells(e, a + n, m) == Some(rest) ==> GetCells(e, a, m + 1) == Some([(v, n)] + rest)
  {
  }

  /** Storing further cells leaves the one before them readable. */
  lemma FirstReads(d: dict, a: nat, v: cell, vs: seq<cell>)
    requires a < DICT_SIZE - 2 && a + |Encode(v)| < DICT_SIZE
    requires d[a..a + |Encode(v)|] == Encode(v)
    ensures GetCell(PutCells(d, a + |Encode(v)|, vs).d, a) == Got(v, |Encode(v)|)
  {
    hide Encode;
    GetEncoded(d, a, v);
    PutCellsFrame(d, a + |Encode(v)|, vs);
    GetCellFrame(d, PutCells(d, a + |Encode(v)|, vs).d, a, a + |Encode(v)|);
  }

  lemma {:induction false} LastStartAfter(a: nat, vs: seq<cell>)
    requires vs != []
    ensures LastStart(a, vs) >= a
    decreases |vs|
  {
    if |vs| > 1 {
      LastStartAfter(a + |Encode(vs[0])|, vs[1..]);
    }
  }
}
