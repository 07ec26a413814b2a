/** Filling the empty dictionary with the primitives and the user variables
    (boot/zforth/zforth.c). */
module ZfBootstrap {
  import opened Words
  import opened ZfCells
  import opened ZfDictionary
  import opened ZfMachine
  import opened ZfEval
  import opened ZfCompile

  const WORD_COUNT := 39

  /** A bootstrapped word: the primitives in order, then the user variables. */
  type entry = k: nat | k < WORD_COUNT

  /** The names in the order they are added: first the primitives, in the order of
      their numbers, then the user variables. */
  function Spelling(k: entry): string {
    match k
    case 0 => "exit"
    case 1 => "lit"
    case 2 => "<0"
    case 3 => ":"
    case 4 => ";"
    case 5 => "+"
    case 6 => "-"
    case 7 => "*"
    case 8 => "/"
    case 9 => "%"
    case 10 => "drop"
    case 11 => "dup"
    case 12 => "pickr"
    case 13 => "immediate"
    case 14 => "@@"
    case 15 => "!!"
    case 16 => "swap"
    case 17 => "rot"
    case 18 => "jmp"
    case 19 => "jmp0"
    case 20 => "'"
    case 21 => "("
    case 22 => ">r"
    case 23 => "r>"
    case 24 => "="
    case 25 => "sys"
    case 26 => "pick"
    case 27 => ",,"
    case 28 => "key"
    case 29 => "lits"
    case 30 => "##"
    case 31 => "&"
    case 32 => "p@"
    case 33 => "p!"
    case 34 => "h"
    case 35 => "latest"
    case 36 => "trace"
    case 37 => "compiling"
    case _ => "_postpone"
  }

  /** `;`, `immediate` and `(`, which the source's table marks with an underscore. */
  predicate IsImmediate(k: nat) {
    k == 4 || k == 13 || k == 21
  }

  function TextOf(s: string): seq<byte> {
    seq(|s|, i requires 0 <= i < |s| => s[i] as int % 256)
  }

  predicate Ascii(s: string) {
    forall i :: 0 <= i < |s| ==> s[i] < 128 as char
  }

  lemma SpellingLength(k: entry)
    ensures 1 <= |Spelling(k)| <= 9
  {
  }

  lemma SpellingAscii(k: entry)
    ensures Ascii(Spelling(k))
  {
    hide Ascii;
    if k < 13 {
      EarlyAscii(k);
    } else if k < 26 {
      MiddleAscii(k);
    } else {
      LateAscii(k);
    }
  }

  lemma EarlyAscii(k: nat)
    requires k < 13
    ensures Ascii(Spelling(k))
  {
  }

  lemma MiddleAscii(k: nat)
    requires 13 <= k < 26
    ensures Ascii(Spelling(k))
  {
  }

  lemma LateAscii(k: nat)
    requires 26 <= k < WORD_COUNT
    ensures Ascii(Spelling(k))
  {
  }

  lemma SpellingDistinct(i: nat, j: nat)
    requires i < j < WORD_COUNT
    ensures Spelling(i) != Spelling(j)
  {
  }

  lemma TextInjective(s: string, t: string)
    requires Ascii(s) && Ascii(t) && TextOf(s) == TextOf(t)
    ensures s == t
  {
    assert |TextOf(s)| == |s| && |TextOf(t)| == |t|;
    forall i | 0 <= i < |s|
      ensures s[i] == t[i]
    {
      assert TextOf(s)[i] == TextOf(t)[i];
    }
  }

  function WordName(k: entry): name {
    SpellingLength(k);
    TextOf(Spelling(k))
  }

  lemma NamesDistinct(i: nat, j: nat)
    requires i < WORD_COUNT && j < WORD_COUNT && i != j
    ensures WordName(i) != WordName(j)
  {
    hide Spelling, TextOf, Ascii;
    SpellingAscii(i);
    SpellingAscii(j);
    if i < j {
      SpellingDistinct(i, j);
    } else {
      SpellingDistinct(j, i);
    }
    if WordName(i) == WordName(j) {
      TextInjective(Spelling(i), Spelling(j));
    }
  }

  // ------------------------------------------------------------- functions

  function Then(r: Result, v: cell): Result {
    match r
    case Abort(d) => Abort(d)
    case Done(d) => AddCell(d, v)
  }

  /** One bootstrapped word: header, code, and for some the immediate flag. */
  function AddWord(d: dict, k: entry): Result {
    match Create(d, WordName(k), if k < PRIM_COUNT then FLAG_PRIM else 0)
    case Abort(e) => Abort(e)
    case Done(e) =>
      if k < PRIM_COUNT then
        match Then(AddCell(e, k), EXIT)
        case Abort(f) => Abort(f)
        case Done(f) => if IsImmediate(k) then MakeImmediate(f) else Done(f)
      else Then(AddLiteral(e, k - PRIM_COUNT), EXIT)
  }

  /** zf_init; it leaves POSTPONE as it is. */
  function Init(d: dict, trace: word): dict {
    SetVar(SetVar(SetVar(SetVar(d, HERE, FIRST_FREE), TRACE, trace), LATEST, 0), COMPILING, 0)
  }

  /** zf_bootstrap from the k-th word on. */
  function Bootstrap(d: dict, k: nat): Result
    requires k <= WORD_COUNT
    decreases WORD_COUNT - k
  {
    if k == WORD_COUNT then Done(d)
    else
      match AddWord(d, k)
      case Abort(e) => Abort(e)
      case Done(e) => Bootstrap(e, k + 1)
  }

  // -------------------------------------------------------------- contract

  /** What the k-th word is once it is there: a primitive resolves to its own
      number, a user variable to the code that pushes its index. */
  ghost predicate Present(d: dict, k: nat)
    requires WellFormed(d) && k < WORD_COUNT
  {
    if k < PRIM_COUNT then
      exists c: nat :: Names(d, WordName(k), c, true, IsImmediate(k)) && PrimCode(d, c, k)
    else PushesValue(d, WordName(k), k - PRIM_COUNT)
  }

  ghost predicate PushesValue(d: dict, s: name, v: cell)
    requires WellFormed(d)
  {
    exists c: word :: Pushes(d, s, c, v)
  }

  /** s names code that does nothing but push v. */
  ghost predicate Pushes(d: dict, s: name, c: word, v: cell)
    requires WellFormed(d)
  {
    Resolves(d, s, Call(c, [Lit(v)]))
  }

  lemma PresentFrame(d: dict, e: dict, k: nat)
    requires Extends(d, e) && k < WORD_COUNT && Lookup(e, WordName(k)) == Lookup(d, WordName(k))
    requires Present(d, k)
    ensures Present(e, k)
  {
    hide WellFormed, Lookup, Names, PrimCode, Resolves, WordName, IsImmediate, Var;
    if k < PRIM_COUNT {
      var c: nat :| Names(d, WordName(k), c, true, IsImmediate(k)) && PrimCode(d, c, k);
      NamesFrame(d, e, WordName(k), c, true, IsImmediate(k));
      PrimCodeFrame(d, e, c, k);
    } else {
      var c: word :| Pushes(d, WordName(k), c, k - PRIM_COUNT);
      ResolvesFrame(d, e, WordName(k), Call(c, [Lit(k - PRIM_COUNT)]));
      assert Pushes(e, WordName(k), c, k - PRIM_COUNT);
    }
  }

  lemma ThenAppends(d: dict, r: Result, bs: seq<byte>, v: nat)
    requires HereOk(d) && Appends(d, r, bs) && v < 128
    ensures Appends(d, Then(r, v), bs + [v])
  {
    hide Appends, AddCell, Encode, HereOk;
    AppendsHereOk();
    SmallCell(v);
    if r.Done? {
      AddCellAppends(r.d, v);
    }
    AppendsThen(d, r, Then(r, v), bs, [v]);
  }

  lemma HeaderShort(s: name, flags: nat, link: word)
    requires |s| <= 9 && (flags == 0 || flags == FLAG_PRIM) && link < DICT_SIZE
    ensures |HeaderBytes(s, flags, link)| <= 12
  {
    hide Encode;
    SmallCell(|s| + flags);
    TwoByteCell(link);
  }

  lemma TwoByteCell(v: cell)
    requires 0 <= v < 16384
    ensures |Encode(v)| <= 2
  {
  }

  lemma LatestBelow(d: dict)
    requires WellFormed(d)
    ensures Var(d, LATEST) < Var(d, HERE) < DICT_SIZE
  {
    hide Var, HeaderAt;
  }

  /** Nothing is found but the first k words. */
  ghost predicate OnlyWords(d: dict, k: nat)
    requires WellFormed(d) && k <= WORD_COUNT
  {
    forall t: name :: Lookup(d, t).Some? ==> exists j :: 0 <= j < k && t == WordName(j)
  }

  /** The state of the bootstrap after k words. */
  ghost predicate Ready(d: dict, k: nat)
    requires k <= WORD_COUNT
  {
    WellFormed(d) && FIRST_FREE + 5 * k <= Var(d, HERE) <= FIRST_FREE + 16 * k &&
    Var(d, COMPILING) == 0 && Var(d, POSTPONE) == 0 &&
    (k > 0 ==> Var(d, LATEST) != 0) && OnlyWords(d, k) &&
    forall j :: 0 <= j < k ==> Present(d, j)
  }

  /** A word just created and given a body of bytes bs. */
  ghost predicate Fresh(d: dict, e: dict, s: name, flags: nat, bs: seq<byte>) {
    flags < 128 && Extends(d, e) && Var(e, LATEST) == Var(d, HERE) &&
    Var(e, COMPILING) == Var(d, COMPILING) && Var(e, POSTPONE) == Var(d, POSTPONE) &&
    Var(d, HERE) + 2 < Var(e, HERE) - |bs| && Var(e, HERE) <= Var(d, HERE) + 12 + |bs| &&
    GetCell(e, Var(d, HERE)) == Got(|s| + flags, 1) &&
    e[Var(e, HERE) - |bs|..Var(e, HERE)] == bs &&
    forall t: name :: Lookup(e, t) ==
      if t == s then Some(Hit(Var(d, HERE), Var(e, HERE) - |bs|)) else Lookup(d, t)
  }

  lemma FreshCreate(d: dict, s: name, flags: nat)
    requires WellFormed(d) && Var(d, HERE) + 12 < DICT_SIZE
    requires |s| <= 9 && (flags == 0 || flags == FLAG_PRIM)
    ensures Create(d, s, flags).Done?
    ensures Fresh(d, Create(d, s, flags).d, s, flags, [])
  {
    hide Var, Create, HeaderBytes, Chain, Find, HeaderAt, GetCell;
    LatestBelow(d);
    HeaderShort(s, flags, Var(d, LATEST));
    CreateEffect(d, s, flags);
    var e := Create(d, s, flags).d;
    CreateChain(d, e, s, flags);
    OneByteCell(e, Var(d, HERE));
    VarFrame(d, e, COMPILING);
    VarFrame(d, e, POSTPONE);
    forall t: name
      ensures Lookup(e, t) == if t == s then Some(Hit(Var(d, HERE), Var(e, HERE))) else Lookup(d, t)
    {
      CreateFinds(d, s, flags, t);
    }
    assert e[Var(e, HERE)..Var(e, HERE)] == [];
    HeaderAtLeast(s, flags, Var(d, LATEST));
  }

  lemma HeaderAtLeast(s: name, flags: nat, link: word)
    requires flags == 0 || flags == FLAG_PRIM
    ensures |HeaderBytes(s, flags, link)| >= 3
  {
    hide Encode;
  }

  lemma FreshAppend(d: dict, e: dict, s: name, flags: nat, r: Result, bs: seq<byte>)
    requires Fresh(d, e, s, flags, []) && Appends(e, r, bs) && r.Done?
    ensures Fresh(d, r.d, s, flags, bs)
  {
    hide Var, GetCell, Lookup, WellFormed;
    HereBound(d);
    HereBound(e);
    AppendsKeepsVar(e, r, bs, LATEST);
    AppendsKeepsVar(e, r, bs, COMPILING);
    AppendsKeepsVar(e, r, bs, POSTPONE);
    GetCellFrame(e, r.d, Var(d, HERE), Var(e, HERE));
    forall t: name
      ensures WellFormed(r.d) && Lookup(r.d, t) == Lookup(e, t)
    {
      GrowKeepsFinds(e, r.d, t);
    }
    GrowKeepsFinds(e, r.d, s);
  }

  lemma LatestHeader(d: dict)
    requires WellFormed(d) && Var(d, LATEST) != 0
    ensures HeaderAt(d, Var(d, LATEST)).Some?
  {
    hide Var, HeaderAt;
  }

  /** Marking the fresh word immediate changes its flags only. */
  lemma FreshImmediate(d: dict, e: dict, s: name, bs: seq<byte>)
    requires WellFormed(d) && Fresh(d, e, s, FLAG_PRIM, bs)
    ensures MakeImmediate(e).Done?
    ensures Fresh(d, MakeImmediate(e).d, s, FLAG_PRIM + FLAG_IMMEDIATE, bs)
  {
    hide Var, GetCell, Chain, Find, MakeImmediate, Encode, HeaderAt;
    HereBound(d);
    LatestHeader(e);
    MakeImmediateEffect(e);
    var f := MakeImmediate(e).d;
    var w := Var(d, HERE);
    OneByteCell(e, w);
    OneByteCell(f, w);
    forall t: name
      ensures WellFormed(f) && Lookup(f, t) == Lookup(e, t)
    {
      MakeImmediateFinds(e, t);
    }
    MakeImmediateFinds(e, s);
    VarFrame(e, f, COMPILING);
    VarFrame(e, f, POSTPONE);
    assert f[Var(e, HERE) - |bs|..Var(e, HERE)] == e[Var(e, HERE) - |bs|..Var(e, HERE)];
  }

  lemma FreshPrim(d: dict, e: dict, k: nat, flags: nat)
    requires k < PRIM_COUNT && WellFormed(d) && Var(e, HERE) <= DICT_SIZE - 2
    requires flags == if IsImmediate(k) then FLAG_PRIM + FLAG_IMMEDIATE else FLAG_PRIM
    requires Fresh(d, e, WordName(k), flags, [k, 0])
    ensures Present(e, k)
  {
    hide Var, GetCell, Lookup, Encode, IsImmediate;
    HereBound(d);
    var c := Var(e, HERE) - 2;
    var s := e[c..Var(e, HERE)];
    assert e[c] == s[0] && e[c + 1] == s[1];
    SmallCell(k);
    SmallCell(EXIT);
    assert e[c..c + 1] == [k];
    assert e[c + 1..c + 2] == [0];
    GetEncoded(e, c, k);
    GetEncoded(e, c + 1, EXIT);
    assert PrimCode(e, c, k);
    FlagBits(|WordName(k)|);
    assert Names(e, WordName(k), c, true, IsImmediate(k));
  }

  lemma FlagBits(n: nat)
    requires n < 32
    ensures (n + 32) / 32 % 2 == 1 && (n + 32) / 64 % 2 == 0
    ensures (n + 96) / 32 % 2 == 1 && (n + 96) / 64 % 2 == 1
    ensures n / 32 % 2 == 0 && n / 64 % 2 == 0
  {
  }

  lemma VariableCode(e: dict, c: nat, v: nat, here: nat)
    requires v < 128 && FIRST_FREE <= c && here <= DICT_SIZE - 2
    requires c + |Bytes([Lit(v)])| + 1 == here && e[c..here] == Bytes([Lit(v)]) + [0]
    ensures BodyAt(e, c, [Lit(v)], here)
  {
    hide GetCell, Encode, Bytes;
    var items := [Lit(v)];
    var bs := Bytes(items);
    assert e[c..c + |bs|] == e[c..here][..|bs|] == bs;
    assert e[c + |bs|..here] == e[c..here][|bs|..] == [0];
    SmallCell(EXIT);
    ItemsFromBytes(e, c, items, here);
    GetEncoded(e, c + |bs|, EXIT);
  }

  lemma FreshVariable(d: dict, e: dict, k: nat)
    requires PRIM_COUNT <= k < WORD_COUNT && WellFormed(d) && PRIM_COUNT <= Var(d, HERE)
    requires Var(e, HERE) <= DICT_SIZE - 2
    requires Fresh(d, e, WordName(k), 0, Bytes([Lit(k - PRIM_COUNT)]) + [0])
    ensures Present(e, k)
  {
    hide Var, GetCell, Lookup, Bytes, BodyAt, WordName, WellFormed;
    HereBound(d);
    var items := [Lit(k - PRIM_COUNT)];
    var c, here := Var(e, HERE) - |Bytes(items)| - 1, Var(e, HERE);
    VariableCode(e, c, k - PRIM_COUNT, here);
    FlagBits(|WordName(k)|);
    assert Names(e, WordName(k), c, false, false);
    assert Resolves(e, WordName(k), Call(c, items));
    assert Pushes(e, WordName(k), c, k - PRIM_COUNT);
  }

  lemma AddWordReady(d: dict, k: nat)
    requires k < WORD_COUNT && Ready(d, k)
    ensures AddWord(d, k).Done? && Ready(AddWord(d, k).d, k + 1)
  {
    hide Var, GetCell, Lookup, Create, AddCell, MakeImmediate, Present, WordName, Appends, Encode, Bytes, WellFormed;
    HereBound(d);
    NameShort(k);
    var n := WordName(k);
    var flags := if k < PRIM_COUNT then FLAG_PRIM else 0;
    FreshCreate(d, n, flags);
    var e := Create(d, n, flags).d;
    if k < PRIM_COUNT {
      SmallCell(k);
      HereBound(e);
      AddCellAppends(e, k);
      ThenAppends(e, AddCell(e, k), [k], EXIT);
      var r := Then(AddCell(e, k), EXIT);
      assert [k] + [0] == [k, 0];
      AppendsFits(e, r, [k, 0]);
      FreshAppend(d, e, n, flags, r, [k, 0]);
      if IsImmediate(k) {
        FreshImmediate(d, r.d, n, [k, 0]);
        FreshPrim(d, AddWord(d, k).d, k, FLAG_PRIM + FLAG_IMMEDIATE);
        FreshReady(d, AddWord(d, k).d, k, FLAG_PRIM + FLAG_IMMEDIATE, [k, 0]);
      } else {
        FreshPrim(d, r.d, k, flags);
        FreshReady(d, r.d, k, flags, [k, 0]);
      }
    } else {
      var v := k - PRIM_COUNT;
      HereBound(e);
      AddLiteralAppends(e, v);
      ThenAppends(e, AddLiteral(e, v), ItemBytes(Lit(v)), EXIT);
      LiteralBytes(v);
      var bs := Bytes([Lit(v)]) + [0];
      var r := Then(AddLiteral(e, v), EXIT);
      AppendsFits(e, r, bs);
      FreshAppend(d, e, n, flags, r, bs);
      FreshVariable(d, r.d, k);
      FreshReady(d, r.d, k, flags, bs);
    }
  }

  lemma NameShort(k: entry)
    ensures |WordName(k)| <= 9
  {
    hide Spelling;
    SpellingLength(k);
  }

  lemma AppendsFits(d: dict, r: Result, bs: seq<byte>)
    requires Appends(d, r, bs) && Var(d, HERE) + |bs| < DICT_SIZE
    ensures r.Done? && Var(r.d, HERE) == Var(d, HERE) + |bs|
  {
    hide Var;
  }

  lemma LiteralBytes(v: nat)
    requires v < 128
    ensures Bytes([Lit(v)]) == ItemBytes(Lit(v)) && |ItemBytes(Lit(v))| == 2
  {
    SmallCell(v);
    SmallCell(LIT);
    hide Encode;
    assert [Lit(v)][1..] == [];
  }

  lemma FreshReady(d: dict, e: dict, k: nat, flags: nat, bs: seq<byte>)
    requires k < WORD_COUNT && Ready(d, k) && Fresh(d, e, WordName(k), flags, bs) && Present(e, k)
    requires 2 <= |bs| <= 3
    ensures Ready(e, k + 1)
  {
    hide Var, GetCell, Lookup, Present, WordName, WellFormed;
    HereBound(d);
    forall j | 0 <= j < k
      ensures Present(e, j)
    {
      NamesDistinct(j, k);
      PresentFrame(d, e, j);
    }
    forall t: name | Lookup(e, t).Some?
      ensures exists j :: 0 <= j < k + 1 && t == WordName(j)
    {
      if t != WordName(k) {
        assert Lookup(d, t).Some?;
      }
    }
  }

  lemma {:induction false} BootstrapReady(d: dict, k: nat)
    requires k <= WORD_COUNT && Ready(d, k)
    ensures Bootstrap(d, k).Done? && Ready(Bootstrap(d, k).d, WORD_COUNT)
    decreases WORD_COUNT - k
  {
    hide AddWord, Ready;
    if k < WORD_COUNT {
      AddWordReady(d, k);
      BootstrapReady(AddWord(d, k).d, k + 1);
    }
  }

  lemma InitReady(d: dict, trace: word)
    requires Var(d, POSTPONE) == 0
    ensures Ready(Init(d, trace), 0)
  {
    hide Var, SetVar;
    var d1 := SetVar(d, HERE, FIRST_FREE);
    var d2 := SetVar(d1, TRACE, trace);
    var d3 := SetVar(d2, LATEST, 0);
    SetVarReads(d, HERE, FIRST_FREE);
    SetVarReads(d1, TRACE, trace);
    SetVarReads(d2, LATEST, 0);
    SetVarReads(d3, COMPILING, 0);
  }

  /** From any memory in which POSTPONE is 0, initialising and bootstrapping cannot
      fail and gives a well-formed dictionary above the primitive numbers in which
      every primitive and user variable is found and means itself; in particular
      `:` and `;` are what compiling needs. */
  lemma BootstrapEstablishes(d: dict, trace: word)
    requires Var(d, POSTPONE) == 0
    ensures var r := Bootstrap(Init(d, trace), 0);
            r.Done? && WellFormed(r.d) && Var(r.d, LATEST) != 0 &&
            PRIM_COUNT <= Var(r.d, HERE) <= 700 &&
            Var(r.d, COMPILING) == 0 && Var(r.d, POSTPONE) == 0 &&
            (forall k :: 0 <= k < WORD_COUNT ==> Present(r.d, k)) && OnlyWords(r.d, WORD_COUNT) &&
            exists colon, semi :: CompilerWords(r.d, colon, semi)
  {
    hide Var, Present, OnlyWords, Bootstrap, Init, Names, PrimCode;
    InitReady(d, trace);
    BootstrapReady(Init(d, trace), 0);
    ColonSemi(Bootstrap(Init(d, trace), 0).d);
  }

  lemma ColonSemi(d: dict)
    requires WellFormed(d) && Present(d, COL) && Present(d, SEMICOL)
    ensures exists colon, semi :: CompilerWords(d, colon, semi)
  {
    hide Names, PrimCode, WellFormed;
    assert WordName(COL) == COLON;
    assert WordName(SEMICOL) == SEMI;
    var colon: nat :| Names(d, COLON, colon, true, false) && PrimCode(d, colon, COL);
    var semi: nat :| Names(d, SEMI, semi, true, true) && PrimCode(d, semi, SEMICOL);
    assert CompilerWords(d, colon, semi);
  }

  // ------------------------------------------------- a freshly booted system

  /** A word a body can be made of right after booting: a stack primitive, a user
      variable, or a number that names no word. */
  ghost predicate Usable(d: dict, s: name)
    requires WellFormed(d)
  {
    (exists op: nat :: StackPrim(op) && op < PRIM_COUNT && s == WordName(op)) ||
    (exists k: nat :: PRIM_COUNT <= k < WORD_COUNT && s == WordName(k)) ||
    (Lookup(d, s) == None && ParseNumber(s).Some?)
  }

  /** What such a word stands for. */
  ghost function ItemOf(d: dict, s: name): Item
    requires WellFormed(d)
  {
    match Lookup(d, s)
    case None => Lit(if ParseNumber(s).Some? then ParseNumber(s).value else 0)
    case Some(hit) => ItemAtCode(d, hit.header, hit.code)
  }

  /** The primitive a word is, or the number its code pushes. */
  function ItemAtCode(d: dict, header: nat, code: nat): Item {
    match GetCell(d, header)
    case Got(flags, _) =>
      if flags / 32 % 2 == 1 then Prim(NatAt(d, code)) else Call(code % TWO32, [Lit(CellAt(d, code + 1))])
    case Outside => Prim(0)
  }

  function CellAt(d: dict, a: nat): cell {
    match GetCell(d, a)
    case Got(v, _) => v
    case Outside => 0
  }

  function NatAt(d: dict, a: nat): nat {
    if CellAt(d, a) < 0 then 0 else CellAt(d, a)
  }

  ghost function ItemsOf(d: dict, words: seq<name>): (items: seq<Item>)
    requires WellFormed(d)
    ensures |items| == |words|
  {
    seq(|words|, k requires 0 <= k < |words| => ItemOf(d, words[k]))
  }

  lemma StackPrimOrdinary(op: nat)
    requires StackPrim(op)
    ensures op < PRIM_COUNT && !IsImmediate(op)
  {
  }

  lemma PrimResolves(d: dict, op: nat)
    requires WellFormed(d) && StackPrim(op) && op < PRIM_COUNT && Present(d, op)
    ensures ItemOf(d, WordName(op)) == Prim(op) && Resolves(d, WordName(op), Prim(op))
  {
    hide WellFormed, WordName, Lookup, GetCell;
    StackPrimOrdinary(op);
  }

  lemma VarResolves(d: dict, k: nat)
    requires WellFormed(d) && PRIM_COUNT <= k < WORD_COUNT && Present(d, k)
    ensures ItemOf(d, WordName(k)).Call? && ItemOf(d, WordName(k)).body == [Lit(k - PRIM_COUNT)]
    ensures Resolves(d, WordName(k), ItemOf(d, WordName(k)))
  {
    hide WellFormed, WordName, Lookup, GetCell, Encode;
    var c: word :| Pushes(d, WordName(k), c, k - PRIM_COUNT);
    assert ItemAt(d, c, Lit(k - PRIM_COUNT), Var(d, HERE)) by {
      assert ItemsAt(d, c, [Lit(k - PRIM_COUNT)], Var(d, HERE));
    }
    assert ItemOf(d, WordName(k)) == Call(c, [Lit(k - PRIM_COUNT)]);
  }

  lemma UsableResolves(d: dict, s: name)
    requires WellFormed(d) && (forall k :: 0 <= k < WORD_COUNT ==> Present(d, k)) && Usable(d, s)
    ensures Resolves(d, s, ItemOf(d, s)) && ItemDepth(ItemOf(d, s)) <= 1
  {
    hide WellFormed, Present, WordName, Resolves, ItemOf, Lookup;
    if op: nat :| StackPrim(op) && op < PRIM_COUNT && s == WordName(op) {
      PrimResolves(d, op);
    } else if k: nat :| PRIM_COUNT <= k < WORD_COUNT && s == WordName(k) {
      VarResolves(d, k);
      assert Depth([Lit(k - PRIM_COUNT)]) == 0 by {
        assert [Lit(k - PRIM_COUNT)][1..] == [];
      }
    } else {
      NumberResolves(d, s);
    }
  }

  lemma NumberResolves(d: dict, s: name)
    requires WellFormed(d) && Lookup(d, s) == None && ParseNumber(s).Some?
    ensures Resolves(d, s, ItemOf(d, s)) && ItemOf(d, s).Lit?
  {
    hide WellFormed, Lookup, ParseNumber;
  }

  lemma {:induction false} DepthBound(items: seq<Item>)
    requires forall k :: 0 <= k < |items| ==> ItemDepth(items[k]) <= 1
    ensures Depth(items) <= 1
    decreases |items|
  {
    hide ItemDepth;
    if items != [] {
      DepthBound(items[1..]);
    }
  }

  /** After booting, any new word can be defined over any usable words as far as the
      dictionary has room, so the main result of compilation applies to it. */
  lemma BootedDefines(d: dict, trace: word, m: machine, n: name, words: seq<name>)
    requires Var(d, POSTPONE) == 0 && m.dict == Bootstrap(Init(d, trace), 0).d && m.input == INTERPRET
    requires WellFormed(m.dict) ==> forall k :: 0 <= k < |words| ==> Usable(m.dict, words[k])
    requires WellFormed(m.dict) ==>
               Var(m.dict, HERE) + |HeaderBytes(n, 0, Var(m.dict, LATEST))| +
               |Bytes(ItemsOf(m.dict, words))| + 1 <= DICT_SIZE - 2
    requires n != SEMI && n !in words
    ensures WellFormed(m.dict)
    ensures exists colon, semi :: Definable(m, n, words, ItemsOf(m.dict, words), colon, semi)
  {
    hide Var, Present, Bootstrap, Init, WellFormed, CompilerWords, HeaderBytes, Bytes, Depth, Resolves, Usable, ItemOf,
      ItemDepth;
    BootstrapEstablishes(d, trace);
    var colon, semi :| CompilerWords(m.dict, colon, semi);
    forall k | 0 <= k < |words|
      ensures Resolves(m.dict, words[k], ItemsOf(m.dict, words)[k]) && ItemDepth(ItemsOf(m.dict, words)[k]) <= 1
    {
      UsableResolves(m.dict, words[k]);
    }
    DepthBound(ItemsOf(m.dict, words));
    assert Definable(m, n, words, ItemsOf(m.dict, words), colon, semi);
  }
}
