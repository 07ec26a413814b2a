/** zForth's dictionary: user variables overlaid on its first bytes and, above
    them, a linked list of words growing upward (boot/zforth/zforth.c). */
module ZfDictionary {
  import opened Words
  import opened ZfCells

  const FLAG_IMMEDIATE := 64
  const FLAG_PRIM := 32
  const FIRST_FREE := 20

  /** A word as handed on by the tokenizer: a C string of 1 to 31 bytes. */
  type name = s: seq<byte> | 1 <= |s| <= 31 witness [46]

  // ------------------------------------------------------- user variables

  datatype UserVar = HERE | LATEST | TRACE | COMPILING | POSTPONE {
    function Offset(): nat {
      match this
      case HERE => 0
      case LATEST => 4
      case TRACE => 8
      case COMPILING => 12
      case POSTPONE => 16
    }
  }

  function Var(d: dict, u: UserVar): word {
    WordAt(d[u.Offset()..u.Offset() + 4])
  }

  function SetVar(d: dict, u: UserVar, w: word): (r: dict)
    ensures forall i :: 0 <= i < DICT_SIZE && !(u.Offset() <= i < u.Offset() + 4) ==> r[i] == d[i]
  {
    Write(d, u.Offset(), Le(w, 4))
  }

  lemma SetVarReads(d: dict, u: UserVar, w: word)
    ensures Var(SetVar(d, u, w), u) == w
    ensures forall v: UserVar :: v != u ==> Var(SetVar(d, u, w), v) == Var(d, v)
  {
    WriteReads(d, u.Offset(), Le(w, 4));
    WordRoundTrip(w);
    forall v: UserVar | v != u
      ensures Var(SetVar(d, u, w), v) == Var(d, v)
    {
      VarFrame(d, SetVar(d, u, w), v);
    }
  }

  lemma VarFrame(d: dict, e: dict, v: UserVar)
    requires forall i :: v.Offset() <= i < v.Offset() + 4 ==> e[i] == d[i]
    ensures Var(e, v) == Var(d, v)
  {
    assert e[v.Offset()..v.Offset() + 4] == d[v.Offset()..v.Offset() + 4];
  }

  // ------------------------------------------------------------- appending

  /** A dictionary operation completes or aborts with the dictionary as it then is. */
  datatype Result = Done(d: dict) | Abort(d: dict)

  /** Stores at HERE and moves HERE past what was stored. */
  function AddCell(d: dict, v: cell): Result {
    match PutCell(d, Var(d, HERE), v)
    case Overrun(e) => Abort(e)
    case Stored(e, n) => Done(SetVar(e, HERE, ToWord(Var(e, HERE) + n)))
  }

  function AddBytes(d: dict, s: seq<byte>): Result
    requires |s| < DICT_SIZE
  {
    match PutBytes(d, Var(d, HERE), s)
    case Overrun(e) => Abort(e)
    case Stored(e, n) => Done(SetVar(e, HERE, ToWord(Var(e, HERE) + n)))
  }

  /** A new header: length and flags, link to the word before, name. */
  function LayHeader(d: dict, s: name, flags: nat): Result
    requires flags == 0 || flags == FLAG_PRIM
  {
    match AddCell(d, |s| + flags)
    case Abort(e) => Abort(e)
    case Done(d1) =>
      match AddCell(d1, ToCell(Var(d1, LATEST)))
      case Abort(e) => Abort(e)
      case Done(d2) => AddBytes(d2, s)
  }

  /** LATEST moves to the new header only after all of it is in place. */
  function Create(d: dict, s: name, flags: nat): Result
    requires flags == 0 || flags == FLAG_PRIM
  {
    match LayHeader(d, s, flags)
    case Abort(e) => Abort(e)
    case Done(e) => Done(SetVar(e, LATEST, Var(d, HERE)))
  }

  /** `x | 64` on a two's-complement cell. */
  function SetImmediate(x: cell): cell {
    if x / 64 % 2 == 1 then x else ToCell(x + 64)
  }

  function MakeImmediate(d: dict): Result {
    match GetCell(d, Var(d, LATEST))
    case Outside => Abort(d)
    case Got(lenflags, _) =>
      match PutCell(d, Var(d, LATEST), SetImmediate(lenflags))
      case Overrun(e) => Abort(e)
      case Stored(e, _) => Done(e)
  }

  // ----------------------------------------------------------------- chain

  datatype Header = Header(lenflags: nat, link: word, nameAt: nat) {
    function Len(): nat { lenflags % 32 }
    function Code(): nat { nameAt + Len() }
    predicate Immediate() { lenflags / 64 % 2 == 1 }
    predicate Prim() { lenflags / 32 % 2 == 1 }
  }

  /** The header cells at w, when both can be read and the first is one byte. */
  function HeaderAt(d: dict, w: nat): Option<Header> {
    match GetCell(d, w)
    case Outside => None
    case Got(lenflags, k) =>
      if k != 1 then None
      else
        match GetCell(d, w + k)
        case Outside => None
        case Got(link, m) => Some(Header(lenflags, ToWord(link), w + k + m))
  }

  /** The words from w on, newest first, lie above the user variables, end below
      lim, do not overlap, and link strictly downward to 0. */
  ghost predicate Chain(d: dict, w: nat, lim: nat)
    decreases w
  {
    w == 0 ||
    (FIRST_FREE <= w < lim < DICT_SIZE &&
     HeaderAt(d, w).Some? &&
     var h := HeaderAt(d, w).value;
     1 <= h.Len() && h.Code() <= lim && h.link < w && Chain(d, h.link, w))
  }

  /** The invariant of the dictionary between operations. */
  ghost predicate WellFormed(d: dict) {
    FIRST_FREE <= Var(d, HERE) < DICT_SIZE &&
    Chain(d, Var(d, LATEST), Var(d, HERE))
  }

  /** Changing bytes at lim or above leaves a chain below lim as it was. */
  lemma {:induction false} HeaderFrame(d: dict, e: dict, w: nat, lim: nat)
    requires HeaderAt(d, w).Some? && HeaderAt(d, w).value.nameAt <= lim <= DICT_SIZE
    requires forall i :: w <= i < lim ==> e[i] == d[i]
    ensures HeaderAt(e, w) == HeaderAt(d, w)
  {
    GetCellFrame(d, e, w, lim);
    GetCellFrame(d, e, w + 1, lim);
  }

  lemma {:induction false} ChainFrame(d: dict, e: dict, w: nat, lim: nat, lim': nat)
    requires Chain(d, w, lim) && lim <= lim' < DICT_SIZE
    requires forall i :: FIRST_FREE <= i < lim ==> e[i] == d[i]
    ensures Chain(e, w, lim')
    decreases w
  {
    if w != 0 {
      HeaderFrame(d, e, w, lim);
      ChainFrame(d, e, HeaderAt(d, w).value.link, w, w);
    }
  }

  // ---------------------------------------------------------------- lookup

  datatype Hit = Hit(header: nat, code: nat)

  function NameAt(d: dict, h: Header): seq<byte>
    requires h.Code() <= DICT_SIZE
  {
    d[h.nameAt..h.Code()]
  }

  /** The newest word named s at or below w. */
  function Find(d: dict, s: name, w: nat, ghost lim: nat): Option<Hit>
    requires Chain(d, w, lim)
    decreases w
  {
    if w == 0 then None
    else
      var h := HeaderAt(d, w).value;
      if NameAt(d, h) == s then Some(Hit(w, h.Code()))
      else Find(d, s, h.link, w)
  }

  lemma {:induction false} FindFrame(d: dict, e: dict, s: name, w: nat, lim: nat, lim': nat)
    requires Chain(d, w, lim) && lim <= lim' < DICT_SIZE
    requires forall i :: FIRST_FREE <= i < lim ==> e[i] == d[i]
    ensures Chain(e, w, lim') && Find(e, s, w, lim') == Find(d, s, w, lim)
    decreases w
  {
    ChainFrame(d, e, w, lim, lim');
    if w != 0 {
      HeaderFrame(d, e, w, lim);
      var h := HeaderAt(d, w).value;
      assert NameAt(e, h) == NameAt(d, h);
      FindFrame(d, e, s, h.link, w, w);
    }
  }

  /** A found word is the header of its name with its code right behind it. */
  lemma {:induction false} FindSound(d: dict, s: name, w: nat, lim: nat)
    requires Chain(d, w, lim) && Find(d, s, w, lim).Some?
    ensures var hit := Find(d, s, w, lim).value;
            FIRST_FREE <= hit.header < hit.code <= lim &&
            HeaderAt(d, hit.header).Some? &&
            HeaderAt(d, hit.header).value.Code() == hit.code &&
            |s| <= hit.code && d[hit.code - |s|..hit.code] == s
    decreases w
  {
    var h := HeaderAt(d, w).value;
    if NameAt(d, h) != s {
      FindSound(d, s, h.link, w);
    }
  }

  // ------------------------------------------------- effect of operations

  predicate HereOk(d: dict) {
    FIRST_FREE <= Var(d, HERE) < DICT_SIZE
  }

  /** What an appending operation may do: all of bs goes in at HERE when it fits;
      otherwise it aborts, and either way nothing from byte 4 up to the old HERE
      changes and HERE stays in range. */
  ghost predicate Appends(d: dict, r: Result, bs: seq<byte>) {
    HereOk(r.d) && Var(d, HERE) <= Var(r.d, HERE) &&
    (forall i :: 4 <= i < Var(d, HERE) && i < DICT_SIZE ==> r.d[i] == d[i]) &&
    (r.Done? <==> Var(d, HERE) + |bs| < DICT_SIZE) &&
    (r.Done? ==> Var(r.d, HERE) == Var(d, HERE) + |bs| && r.d[Var(d, HERE)..Var(r.d, HERE)] == bs)
  }

  lemma MoveHere(d: dict, e: dict, bs: seq<byte>)
    requires HereOk(d) && Var(d, HERE) + |bs| < DICT_SIZE
    requires e == Write(d, Var(d, HERE), bs)
    ensures Appends(d, Done(SetVar(e, HERE, ToWord(Var(e, HERE) + |bs|))), bs)
  {
    hide Var, SetVar;
    VarFrame(d, e, HERE);
    var here := Var(d, HERE);
    var f := SetVar(e, HERE, ToWord(here + |bs|));
    SetVarReads(e, HERE, ToWord(here + |bs|));
    WriteReads(d, here, bs);
    assert f[here..here + |bs|] == e[here..here + |bs|];
  }

  lemma AddCellAppends(d: dict, v: cell)
    requires HereOk(d)
    ensures Appends(d, AddCell(d, v), Encode(v))
  {
    hide Encode, PutCell, SetVar, Var;
    PutCellIsWrite(d, Var(d, HERE), v);
    match PutCell(d, Var(d, HERE), v)
    case Overrun(e) => VarFrame(d, e, HERE);
    case Stored(e, n) => MoveHere(d, e, Encode(v));
  }

  lemma AddBytesAppends(d: dict, s: seq<byte>)
    requires HereOk(d) && |s| < DICT_SIZE
    ensures Appends(d, AddBytes(d, s), s)
  {
    match PutBytes(d, Var(d, HERE), s)
    case Overrun(e) =>
    case Stored(e, n) => MoveHere(d, e, s);
  }

  /** Appending twice is appending the concatenation. */
  lemma AppendsThen(d: dict, r1: Result, r2: Result, bs: seq<byte>, cs: seq<byte>)
    requires HereOk(d) && Appends(d, r1, bs)
    requires r1.Done? ==> Appends(r1.d, r2, cs)
    ensures Appends(d, if r1.Done? then r2 else r1, bs + cs)
  {
    if r1.Done? && r2.Done? {
      var a, b, c := Var(d, HERE), Var(r1.d, HERE), Var(r2.d, HERE);
      assert r2.d[a..c] == r2.d[a..b] + r2.d[b..c];
      assert r2.d[a..b] == r1.d[a..b];
    }
  }

  lemma AppendsKeepsVar(d: dict, r: Result, bs: seq<byte>, u: UserVar)
    requires HereOk(d) && u != HERE && Appends(d, r, bs)
    ensures Var(r.d, u) == Var(d, u)
  {
    VarFrame(d, r.d, u);
  }

  lemma AppendsHereOk()
    ensures forall d: dict, r: Result, bs: seq<byte> :: Appends(d, r, bs) ==> HereOk(r.d)
  {
  }

  /** The bytes Create lays down. */
  function HeaderBytes(s: name, flags: nat, link: word): seq<byte>
    requires flags == 0 || flags == FLAG_PRIM
  {
    Encode(|s| + flags) + Encode(ToCell(link)) + s
  }

  lemma LayHeaderAppends(d: dict, s: name, flags: nat)
    requires HereOk(d) && (flags == 0 || flags == FLAG_PRIM)
    ensures Appends(d, LayHeader(d, s, flags), HeaderBytes(s, flags, Var(d, LATEST)))
  {
    hide Encode, Var, AddCell, AddBytes, Appends, ToCell;
    var b1, b2 := Encode(|s| + flags), Encode(ToCell(Var(d, LATEST)));
    AppendsHereOk();
    var r1 := AddCell(d, |s| + flags);
    AddCellAppends(d, |s| + flags);
    AppendsKeepsVar(d, r1, b1, LATEST);
    if r1.Done? {
      var r2 := AddCell(r1.d, ToCell(Var(r1.d, LATEST)));
      AddCellAppends(r1.d, ToCell(Var(r1.d, LATEST)));
      var r3 := if r2.Done? then AddBytes(r2.d, s) else r2;
      if r2.Done? {
        AddBytesAppends(r2.d, s);
      }
      AppendsThen(r1.d, r2, r3, b2, s);
      AppendsThen(d, r1, r3, b1, b2 + s);
      assert b1 + (b2 + s) == b1 + b2 + s;
    } else {
      AppendsThen(d, r1, r1, b1, b2 + s);
      assert b1 + (b2 + s) == b1 + b2 + s;
    }
  }

  /** Create appends a header and then makes it LATEST; when the dictionary fills
      up half-way, LATEST stays as it was. */
  lemma CreateEffect(d: dict, s: name, flags: nat)
    requires HereOk(d) && (flags == 0 || flags == FLAG_PRIM)
    ensures var bs, r := HeaderBytes(s, flags, Var(d, LATEST)), Create(d, s, flags);
            && HereOk(r.d) && Var(d, HERE) <= Var(r.d, HERE)
            && (forall i :: 8 <= i < Var(d, HERE) ==> r.d[i] == d[i])
            && (r.Done? <==> Var(d, HERE) + |bs| < DICT_SIZE)
            && (r.Done? ==> Var(r.d, HERE) == Var(d, HERE) + |bs|)
            && (r.Done? ==> r.d[Var(d, HERE)..Var(r.d, HERE)] == bs)
            && Var(r.d, LATEST) == if r.Done? then Var(d, HERE) else Var(d, LATEST)
  {
    var q := LayHeader(d, s, flags);
    LayHeaderAppends(d, s, flags);
    hide LayHeader, HeaderBytes, SetVar, Var;
    if q.Done? {
      LatestMoves(d, q.d, Var(d, HERE));
    } else {
      VarFrame(d, q.d, LATEST);
    }
  }

  lemma LatestMoves(d: dict, e: dict, w: word)
    requires HereOk(d) && HereOk(e)
    ensures var f := SetVar(e, LATEST, w);
            Var(f, HERE) == Var(e, HERE) && Var(f, LATEST) == w &&
            (Var(d, HERE) <= Var(e, HERE) ==>
               f[Var(d, HERE)..Var(f, HERE)] == e[Var(d, HERE)..Var(e, HERE)])
  {
    SetVarReads(e, LATEST, w);
    var f := SetVar(e, LATEST, w);
    if Var(d, HERE) <= Var(e, HERE) {
      assert f[Var(d, HERE)..Var(f, HERE)] == e[Var(d, HERE)..Var(e, HERE)];
    }
  }

  lemma ThreeParts(x: seq<byte>, b1: seq<byte>, b2: seq<byte>, b3: seq<byte>)
    requires x == b1 + b2 + b3
    ensures x[..|b1|] == b1
    ensures x[|b1|..|b1| + |b2|] == b2
    ensures x[|b1| + |b2|..] == b3
  {
  }

  lemma SliceOfSlice(e: seq<byte>, a: nat, b: nat, i: nat, j: nat)
    requires a <= b <= |e| && i <= j <= b - a
    ensures e[a..b][i..j] == e[a + i..a + j]
  {
    assert forall k :: 0 <= k < j - i ==> e[a..b][i..j][k] == e[a..b][i + k] == e[a + i + k];
  }

  lemma HeaderSlices(e: dict, a: nat, b1: seq<byte>, b2: seq<byte>, b3: seq<byte>)
    requires a + |b1| + |b2| + |b3| <= DICT_SIZE
    requires e[a..a + |b1| + |b2| + |b3|] == b1 + b2 + b3
    ensures e[a..a + |b1|] == b1
    ensures e[a + |b1|..a + |b1| + |b2|] == b2
    ensures e[a + |b1| + |b2|..a + |b1| + |b2| + |b3|] == b3
  {
    var n := |b1| + |b2| + |b3|;
    ThreeParts(b1 + b2 + b3, b1, b2, b3);
    SliceOfSlice(e, a, a + n, 0, |b1|);
    SliceOfSlice(e, a, a + n, |b1|, |b1| + |b2|);
    SliceOfSlice(e, a, a + n, |b1| + |b2|, n);
  }

  /** The bytes Create lays down read back as the header they stand for. */
  lemma HeaderBytesRead(e: dict, a: nat, bs: seq<byte>, s: name, flags: nat, link: word)
    requires flags == 0 || flags == FLAG_PRIM
    requires bs == HeaderBytes(s, flags, link)
    requires a + |bs| < DICT_SIZE && e[a..a + |bs|] == bs
    ensures HeaderAt(e, a) == Some(Header(|s| + flags, link, a + |bs| - |s|))
    ensures |s| <= |bs| && e[a + |bs| - |s|..a + |bs|] == s
  {
    hide Encode, HeaderAt, ToCell;
    var b1, b2 := Encode(|s| + flags), Encode(ToCell(link));
    SmallCell(|s| + flags);
    HeaderSlices(e, a, b1, b2, s);
    HeaderFromCells(e, a, |s| + flags, link);
  }

  lemma HeaderFromCells(e: dict, a: nat, lenflags: nat, link: word)
    requires lenflags < 128 && a + 2 + |Encode(ToCell(link))| < DICT_SIZE
    requires e[a..a + 1] == Encode(lenflags)
    requires e[a + 1..a + 1 + |Encode(ToCell(link))|] == Encode(ToCell(link))
    ensures HeaderAt(e, a) == Some(Header(lenflags, link, a + 1 + |Encode(ToCell(link))|))
  {
    SmallCell(lenflags);
    hide Encode;
    GetEncoded(e, a, lenflags);
    GetEncoded(e, a + 1, ToCell(link));
    WordCellInverse(link);
  }

  /** What a lookup from LATEST gives. */
  function Lookup(d: dict, t: name): Option<Hit>
    requires WellFormed(d)
  {
    Find(d, t, Var(d, LATEST), Var(d, HERE))
  }

  /** A dictionary that changed only at or above HERE, or in the other user
      variables, is still well formed and finds the same words. */
  lemma GrowKeepsFinds(d: dict, e: dict, t: name)
    requires WellFormed(d) && Var(d, HERE) <= Var(e, HERE) < DICT_SIZE
    requires Var(e, LATEST) == Var(d, LATEST)
    requires forall i :: FIRST_FREE <= i < Var(d, HERE) ==> e[i] == d[i]
    ensures WellFormed(e) && Lookup(e, t) == Lookup(d, t)
  {
    FindFrame(d, e, t, Var(d, LATEST), Var(d, HERE), Var(e, HERE));
  }

  /** e is what a complete Create of s turned d into. */
  ghost predicate Created(d: dict, e: dict, s: name, flags: nat) {
    (flags == 0 || flags == FLAG_PRIM) && Create(d, s, flags) == Done(e)
  }

  /** After a complete Create the new word heads the chain. */
  lemma CreateChain(d: dict, e: dict, s: name, flags: nat)
    requires WellFormed(d) && Created(d, e, s, flags)
    ensures WellFormed(e) && Var(e, LATEST) == Var(d, HERE)
    ensures HeaderAt(e, Var(d, HERE)).Some?
    ensures var h := HeaderAt(e, Var(d, HERE)).value;
            h.lenflags == |s| + flags && h.link == Var(d, LATEST) && h.Code() == Var(e, HERE) &&
            NameAt(e, h) == s
    ensures Chain(e, Var(d, LATEST), Var(d, HERE))
  {
    hide Create, Encode, HeaderAt, Var;
    CreateEffect(d, s, flags);
    ChainFrame(d, e, Var(d, LATEST), Var(d, HERE), Var(d, HERE));
    HeaderBytesRead(e, Var(d, HERE), HeaderBytes(s, flags, Var(d, LATEST)), s, flags, Var(d, LATEST));
  }

  /** Finding goes to the new word first and otherwise on to the older ones. */
  lemma CreateFinds(d: dict, s: name, flags: nat, t: name)
    requires WellFormed(d) && (flags == 0 || flags == FLAG_PRIM)
    ensures var r := Create(d, s, flags);
            WellFormed(r.d) &&
            Lookup(r.d, t) == if r.Done? && t == s then Some(Hit(Var(d, HERE), Var(r.d, HERE)))
                              else Lookup(d, t)
  {
    hide Create, Encode, HeaderAt, Var;
    CreateEffect(d, s, flags);
    var r := Create(d, s, flags);
    if r.Done? {
      CreateChain(d, r.d, s, flags);
      FindFrame(d, r.d, t, Var(d, LATEST), Var(d, HERE), Var(d, HERE));
    } else {
      GrowKeepsFinds(d, r.d, t);
    }
  }

  lemma OneByteCell(d: dict, w: nat)
    requires HeaderAt(d, w).Some?
    ensures GetCell(d, w) == Got(HeaderAt(d, w).value.lenflags, 1)
    ensures HeaderAt(d, w).value.lenflags < 128
    ensures GetCell(d, w + 1).Got?
    ensures HeaderAt(d, w).value.nameAt == w + 1 + GetCell(d, w + 1).size
    ensures HeaderAt(d, w).value.link == ToWord(GetCell(d, w + 1).value)
  {
  }

  lemma HeaderOfCells(e: dict, w: nat)
    requires GetCell(e, w).Got? && GetCell(e, w).size == 1 && GetCell(e, w + 1).Got?
    ensures HeaderAt(e, w) == Some(Header(GetCell(e, w).value, ToWord(GetCell(e, w + 1).value),
                                          w + 1 + GetCell(e, w + 1).size))
  {
  }

  lemma ImmediateBits(x: nat)
    requires x < 128
    ensures SetImmediate(x) == if x / 64 % 2 == 1 then x else x + FLAG_IMMEDIATE
    ensures 0 <= SetImmediate(x) < 128 && SetImmediate(x) / 64 % 2 == 1
    ensures SetImmediate(x) % 32 == x % 32 && SetImmediate(x) / 32 % 2 == x / 32 % 2
  {
    var low, mid, high := x % 32, x / 32 % 2, x / 64;
    assert x == 64 * high + 32 * mid + low;
    FlagParts(low, mid, high);
    FlagParts(low, mid, 1);
  }

  /** A length, a primitive flag and an immediate flag in one byte. */
  lemma FlagParts(low: nat, mid: nat, high: nat)
    requires low < 32 && mid < 2 && high < 2
    ensures var x := 64 * high + 32 * mid + low;
            x % 32 == low && x / 32 % 2 == mid && x / 64 == high && x / 64 % 2 == high
  {
    assert 64 * high + 32 * mid + low == 32 * (2 * high + mid) + low;
  }

  /** Storing a one-byte value where a header's first byte is. */
  lemma FlagsRewritten(d: dict, w: nat, v: cell)
    requires HeaderAt(d, w).Some? && 0 <= v < 128
    ensures var r := PutCell(d, w, v);
            r.Stored? && HeaderAt(r.d, w) == Some(HeaderAt(d, w).value.(lenflags := v)) &&
            forall i :: 0 <= i < DICT_SIZE && i != w ==> r.d[i] == d[i]
  {
    hide HeaderAt, PutCell, Encode;
    OneByteCell(d, w);
    PutCellIsWrite(d, w, v);
    SmallCell(v);
    var e := PutCell(d, w, v).d;
    assert e[w] == [v][0];
    assert e[w..w + 1] == [v];
    GetEncoded(e, w, v);
    GetCellFrame(d, e, w + 1, HeaderAt(d, w).value.nameAt);
    HeaderOfCells(e, w);
  }

  lemma ImmediateIsPut(d: dict)
    requires HeaderAt(d, Var(d, LATEST)).Some?
    ensures var w := Var(d, LATEST);
            var r := PutCell(d, w, SetImmediate(HeaderAt(d, w).value.lenflags));
            MakeImmediate(d) == if r.Stored? then Done(r.d) else Abort(r.d)
  {
    hide HeaderAt, PutCell, SetImmediate, Var;
    OneByteCell(d, Var(d, LATEST));
  }

  /** Setting the immediate flag always succeeds, rewrites one byte and never
      changes the length of the cell. */
  lemma MakeImmediateEffect(d: dict)
    requires WellFormed(d) && Var(d, LATEST) != 0
    ensures var w, r := Var(d, LATEST), MakeImmediate(d);
            var h := HeaderAt(d, w).value;
            var h' := h.(lenflags := if h.Immediate() then h.lenflags else h.lenflags + FLAG_IMMEDIATE);
            && r.Done?
            && (forall i :: 0 <= i < DICT_SIZE && i != w ==> r.d[i] == d[i])
            && h'.lenflags < 128
            && |Encode(h'.lenflags)| == |Encode(h.lenflags)|
            && HeaderAt(r.d, w) == Some(h')
            && h'.Immediate() && h'.Prim() == h.Prim() && h'.Len() == h.Len()
  {
    hide HeaderAt, Var, PutCell, SetImmediate, Encode, MakeImmediate;
    var w := Var(d, LATEST);
    OneByteCell(d, w);
    var flags := HeaderAt(d, w).value.lenflags;
    ImmediateBits(flags);
    FlagsRewritten(d, w, SetImmediate(flags));
    ImmediateIsPut(d);
    SmallCell(flags);
    SmallCell(SetImmediate(flags));
  }

  /** Flag bits of the newest header take no part in finding words. */
  lemma RelabelFinds(d: dict, e: dict, w: nat, lim: nat, t: name)
    requires w != 0 && Chain(d, w, lim)
    requires forall i :: 0 <= i < w ==> e[i] == d[i]
    requires forall i :: w < i < DICT_SIZE ==> e[i] == d[i]
    requires HeaderAt(e, w).Some?
    requires var h, h' := HeaderAt(d, w).value, HeaderAt(e, w).value;
             h'.link == h.link && h'.nameAt == h.nameAt && h'.Len() == h.Len()
    ensures Chain(e, w, lim) && Find(e, t, w, lim) == Find(d, t, w, lim)
  {
    hide HeaderAt;
    var h := HeaderAt(d, w).value;
    FindFrame(d, e, t, h.link, w, w);
    assert h.nameAt > w ==> NameAt(e, HeaderAt(e, w).value) == NameAt(d, h);
    NameAfterHeader(d, w);
  }

  lemma NameAfterHeader(d: dict, w: nat)
    requires HeaderAt(d, w).Some?
    ensures HeaderAt(d, w).value.nameAt > w
  {
  }

  lemma MakeImmediateFinds(d: dict, t: name)
    requires WellFormed(d) && Var(d, LATEST) != 0
    ensures var e := MakeImmediate(d).d;
            Var(e, LATEST) == Var(d, LATEST) && Var(e, HERE) == Var(d, HERE) &&
            WellFormed(e) && Lookup(e, t) == Lookup(d, t)
  {
    MakeImmediateEffect(d);
    hide MakeImmediate, HeaderAt, Chain, Find;
    var w := Var(d, LATEST);
    var e := MakeImmediate(d).d;
    ChainHead(d, w, Var(d, HERE));
    VarFrame(d, e, HERE);
    VarFrame(d, e, LATEST);
    hide Var;
    RelabelFinds(d, e, w, Var(d, HERE), t);
  }

  lemma ChainHead(d: dict, w: nat, lim: nat)
    requires Chain(d, w, lim) && w != 0
    ensures FIRST_FREE <= w < lim < DICT_SIZE
  {
  }

  // ---------------------------------------------------------------- traces

  datatype Op =
    | OpCreate(s: name, flags: nat)
    | OpCell(v: cell)
    | OpBytes(bs: seq<byte>)
    | OpImmediate
  {
    predicate Valid() {
      match this
      case OpCreate(_, flags) => flags == 0 || flags == FLAG_PRIM
      case OpBytes(bs) => |bs| < DICT_SIZE
      case _ => true
    }
  }

  type op = o: Op | o.Valid() witness OpImmediate

  function Apply(d: dict, o: op): Result {
    match o
    case OpCreate(s, flags) => Create(d, s, flags)
    case OpCell(v) => AddCell(d, v)
    case OpBytes(bs) => AddBytes(d, bs)
    case OpImmediate => MakeImmediate(d)
  }

  /** A run of operations; an aborted one leaves what it had written and the next
      one carries on from there. */
  function ApplyAll(d: dict, ops: seq<op>): dict
    decreases |ops|
  {
    if ops == [] then d else ApplyAll(Apply(d, ops[0]).d, ops[1..])
  }

  /** The definition one operation completes, if any. */
  function Defined(d: dict, o: op): map<name, Hit> {
    var r := Apply(d, o);
    if o.OpCreate? && r.Done? then map[o.s := Hit(Var(d, HERE), Var(r.d, HERE))] else map[]
  }

  /** The reference: what each name was last completely created as. */
  function Definitions(d: dict, ops: seq<op>): map<name, Hit>
    decreases |ops|
  {
    if ops == [] then map[]
    else Defined(d, ops[0]) + Definitions(Apply(d, ops[0]).d, ops[1..])
  }

  /** The defined word, or the one found before. */
  function Newest(defs: map<name, Hit>, t: name, older: Option<Hit>): Option<Hit> {
    if t in defs then Some(defs[t]) else older
  }

  lemma ApplyFinds(d: dict, o: op, t: name)
    requires WellFormed(d) && Var(d, LATEST) != 0
    ensures var e := Apply(d, o).d;
            WellFormed(e) && Var(e, LATEST) != 0 &&
            Lookup(e, t) == Newest(Defined(d, o), t, Lookup(d, t))
  {
    match o
    case OpCreate(s, flags) =>
      CreateFinds(d, s, flags, t);
      CreateEffect(d, s, flags);
    case OpCell(v) =>
      AddCellAppends(d, v);
      AppendsKeepsVar(d, AddCell(d, v), Encode(v), LATEST);
      GrowKeepsFinds(d, AddCell(d, v).d, t);
    case OpBytes(bs) =>
      AddBytesAppends(d, bs);
      AppendsKeepsVar(d, AddBytes(d, bs), bs, LATEST);
      GrowKeepsFinds(d, AddBytes(d, bs).d, t);
    case OpImmediate =>
      MakeImmediateEffect(d);
      MakeImmediateFinds(d, t);
  }

  /** After any run of dictionary operations, cut short or not, the links still
      fall strictly to 0 and a lookup gives the newest complete definition of the
      name, or what it gave before the run. */
  lemma {:induction false} TraceFinds(d: dict, ops: seq<op>, t: name)
    requires WellFormed(d) && Var(d, LATEST) != 0
    ensures var e := ApplyAll(d, ops);
            WellFormed(e) && Var(e, LATEST) != 0 &&
            Lookup(e, t) == Newest(Definitions(d, ops), t, Lookup(d, t))
    decreases |ops|
  {
    if ops != [] {
      ApplyFinds(d, ops[0], t);
      TraceFinds(Apply(d, ops[0]).d, ops[1..], t);
    }
  }
}
