/** What can be typed after booting, in characters: the words by their names, the user
    variables and numbers, and what compile mode makes of a word (boot/zforth/zforth.c). */
module ZfWords {
  import opened Words
  import opened Divisibility
  import opened Numbers
  import opened ZfCells
  import opened ZfDictionary
  import opened ZfMachine
  import opened ZfEval
  import opened ZfCompile
  import opened ZfBootstrap
  import opened ZfTurns

  /** A machine right after zf_init and zf_bootstrap, with any stack. */
  ghost predicate Booted(m: machine) {
    exists d: dict, trace: word, first: nat :: first == 0 && BootedFrom(m, d, trace, first)
  }

  ghost predicate BootedFrom(m: machine, d: dict, trace: word, first: nat)
    requires first <= WORD_COUNT
  {
    Var(d, POSTPONE) == 0 && m.dict == Bootstrap(Init(d, trace), first).d && m.input == INTERPRET
  }

  /** Typing the word s leaves the data stack ds and nothing else changed. */
  ghost predicate Leaves(m: machine, s: name, ds: stack) {
    forall fuel: nat :: fuel >= 4 ==> LeavesIn(m, s, ds, fuel)
  }

  ghost predicate LeavesIn(m: machine, s: name, ds: stack, fuel: nat) {
    var w := Handle(m, s, fuel);
    w.Next? && w.m.ds == ds && w.m.dict == m.dict && w.m.input == INTERPRET
  }

  /** Typing the word s aborts with this code. */
  ghost predicate Stops(m: machine, s: name, code: Code) {
    forall fuel: nat :: fuel >= 4 ==> Handle(m, s, fuel) == Failed(m.dict, code)
  }

  lemma BootedIdle(m: machine)
    requires Booted(m)
    ensures Idle(m) && forall k :: 0 <= k < WORD_COUNT ==> Present(m.dict, k)
  {
    hide Var, Present, Bootstrap, Init, WellFormed, CompilerWords;
    var d, trace, first :| first == 0 && BootedFrom(m, d, trace, first);
    BootstrapEstablishes(d, trace);
  }

  /** A word that is a stack primitive does what the primitive does. */
  lemma PrimTyped(m: machine, s: name, op: nat)
    requires Booted(m) && StackPrim(op) && s == WordName(op)
    ensures RunStackPrim(op, m.ds).Ok? ==> Leaves(m, s, RunStackPrim(op, m.ds).ds)
    ensures RunStackPrim(op, m.ds).Fail? ==> Stops(m, s, RunStackPrim(op, m.ds).code)
  {
    hide Present, WellFormed, RunStackPrim, WordName, Resolves, HandleWord, Handle, Booted, Var;
    BootedIdle(m);
    StackPrimOrdinary(op);
    PrimResolves(m.dict, op);
    forall fuel: nat | fuel >= 4
      ensures Does(m, Handle(m, s, fuel), RunStackPrim(op, m.ds))
    {
      InterpretWord(m, s, Prim(op), fuel);
      HandleIsHandleWord(m, s, fuel);
    }
  }

  /** From memory with POSTPONE 0, as in zeroed storage, there is such a machine for every
      stack. */
  lemma BootedExists(d: dict, trace: word, ds: stack, first: nat)
    requires Number(d[16..20]) == 0 && first == 0
    ensures exists m: machine :: Booted(m) && m.ds == ds
  {
    hide Var, Bootstrap, Init, Number;
    VariablesLie(d);
    var m: machine := Machine(Bootstrap(Init(d, trace), first).d, ds, [], 0, INTERPRET);
    assert BootedFrom(m, d, trace, first);
    assert Booted(m);
  }

  /** On every booted machine, typing s turns the data stack `before` into `after`. */
  ghost predicate Takes(s: seq<byte>, before: seq<cell>, after: seq<cell>) {
    forall m: machine :: Booted(m) && m.ds == before ==> 1 <= |s| <= 31 && |after| <= 32 && Leaves(m, s, after)
  }

  /** Or it aborts. */
  ghost predicate Refuses(s: seq<byte>, before: seq<cell>, code: Code) {
    forall m: machine :: Booted(m) && m.ds == before ==> 1 <= |s| <= 31 && Stops(m, s, code)
  }

  lemma PrimTakes(s: seq<byte>, op: nat, before: seq<cell>, after: seq<cell>)
    requires StackPrim(op) && op < WORD_COUNT && s == WordName(op)
    requires |before| <= 32 ==> |after| <= 32 && RunStackPrim(op, before) == Ok(after)
    ensures Takes(s, before, after)
  {
    hide Booted, Leaves, Stops, WordName, RunStackPrim, StackPrim;
    forall m: machine | Booted(m) && m.ds == before
      ensures 1 <= |s| <= 31 && |after| <= 32 && Leaves(m, s, after)
    {
      PrimTyped(m, s, op);
    }
  }

  lemma PrimRefuses(s: seq<byte>, op: nat, before: seq<cell>, code: Code)
    requires StackPrim(op) && op < WORD_COUNT && s == WordName(op)
    requires |before| <= 32 ==> RunStackPrim(op, before) == Fail(code)
    ensures Refuses(s, before, code)
  {
    hide Booted, Leaves, Stops, WordName, RunStackPrim, StackPrim;
    forall m: machine | Booted(m) && m.ds == before
      ensures 1 <= |s| <= 31 && Stops(m, s, code)
    {
      PrimTyped(m, s, op);
    }
  }

  /** Initialising writes the user variables: HERE is 20, LATEST and COMPILING are 0, TRACE
      is what was asked for, POSTPONE stays. */
  lemma Starts(d: dict, trace: word)
    ensures var e := Init(d, trace);
            Number(e[..4]) == 20 && Number(e[4..8]) == 0 && Number(e[8..12]) == trace && Number(e[12..16]) == 0 &&
            forall i :: 16 <= i < 4096 ==> e[i] == d[i]
  {
    hide Number, Var, SetVar;
    var d1 := SetVar(d, HERE, 20);
    var d2 := SetVar(d1, TRACE, trace);
    var d3 := SetVar(d2, LATEST, 0);
    SetVarReads(d, HERE, 20);
    SetVarReads(d1, TRACE, trace);
    SetVarReads(d2, LATEST, 0);
    SetVarReads(d3, COMPILING, 0);
    VariablesLie(Init(d, trace));
  }

  // ------------------------------------------------------------- names

  lemma NameIs(k: entry, s: string, bytes: seq<byte>)
    requires Spelling(k) == s && |s| == |bytes| && forall i :: 0 <= i < |s| ==> s[i] as int == bytes[i]
    ensures WordName(k) == bytes
  {
    hide Spelling;
  }

  /** On every booted machine s is found as a primitive; its code is the number op and `exit`. */
  ghost predicate IsPrimitive(s: seq<byte>, op: byte, immediate: bool) {
    forall m: machine :: Booted(m) ==> 1 <= |s| <= 31 && FoundPrimitive(m.dict, s, op, immediate)
  }

  ghost predicate FoundPrimitive(d: dict, s: name, op: byte, immediate: bool) {
    WellFormed(d) && Lookup(d, s).Some? && PrimitiveAt(d, Lookup(d, s).value, op, immediate)
  }

  /** The header's first byte has the bit of value 32, and that of value 64 for an immediate word. */
  predicate PrimitiveAt(d: dict, hit: Hit, op: byte, immediate: bool) {
    hit.header < 4096 && hit.code < 4095 &&
    var flags: int := d[hit.header];
    flags / 32 % 2 == 1 && (flags / 64 % 2 == 1 <==> immediate) && d[hit.code] == op && d[hit.code + 1] == 0
  }

  lemma PrimitiveWord(s: seq<byte>, op: byte, immediate: bool)
    requires op < 34 && s == WordName(op) && immediate == IsImmediate(op)
    ensures IsPrimitive(s, op, immediate)
  {
    hide Booted, Present, WellFormed, WordName, IsImmediate, FoundPrimitive;
    forall m: machine | Booted(m)
      ensures 1 <= |s| <= 31 && FoundPrimitive(m.dict, s, op, immediate)
    {
      BootedIdle(m);
      PrimitiveFound(m.dict, op);
    }
  }

  lemma PrimitiveFound(d: dict, k: nat)
    requires WellFormed(d) && k < 34 && Present(d, k)
    ensures FoundPrimitive(d, WordName(k), k, IsImmediate(k))
  {
    hide WellFormed, Lookup, WordName, IsImmediate, GetCell, Var;
    var c: nat :| Names(d, WordName(k), c, true, IsImmediate(k)) && PrimCode(d, c, k);
    var hit := Lookup(d, WordName(k)).value;
    SmallHeader(d, WordName(k));
    SmallAt(d, c, k);
    SmallAt(d, c + 1, 0);
  }

  lemma SmallHeader(d: dict, s: name)
    requires WellFormed(d) && Lookup(d, s).Some?
    ensures var h := Lookup(d, s).value.header; h < 4096 && GetCell(d, h) == Got(d[h], 1)
  {
    hide Var, HeaderAt, Find;
    FindSound(d, s, Var(d, LATEST), Var(d, HERE));
    OneByteCell(d, Lookup(d, s).value.header);
  }

  lemma SmallAt(d: dict, a: nat, v: nat)
    requires v < 128 && GetCell(d, a) == Got(v, 1)
    ensures a < 4096 && d[a] == v
  {
  }

  /** On every booted machine, typing s pushes v. */
  ghost predicate IsVariable(s: seq<byte>, v: cell) {
    forall before: seq<cell>, after: seq<cell> :: |before| < 32 && after == before + [v] ==> Takes(s, before, after)
  }

  lemma VariableWord(s: seq<byte>, k: nat)
    requires 34 <= k < 39 && s == WordName(k)
    ensures IsVariable(s, k - 34)
  {
    hide Booted, WordName, Leaves;
    forall before: seq<cell>, after: seq<cell> | |before| < 32 && after == before + [k - 34]
      ensures Takes(s, before, after)
    {
      forall m: machine | Booted(m) && m.ds == before
        ensures 1 <= |s| <= 31 && |after| <= 32 && Leaves(m, s, after)
      {
        VariableTyped(m, s, k, after);
      }
    }
  }

  lemma VariableTyped(m: machine, s: name, k: entry, ds: stack)
    requires k >= 34 && s == WordName(k) && |m.ds| < 32 && ds == m.ds + [k - 34] && Booted(m)
    ensures Leaves(m, s, ds)
  {
    hide Present, WellFormed, WordName, Resolves, Leaves, Booted, Var, ItemOf;
    BootedIdle(m);
    VarResolves(m.dict, k);
    OneLiteralTyped(m, WordName(k), ItemOf(m.dict, WordName(k)), k - 34);
  }

  lemma OneLiteralTyped(m: machine, s: name, i: Item, v: cell)
    requires Idle(m) && i.Call? && i.body == [Lit(v)] && Resolves(m.dict, s, i) && |m.ds| < 32
    ensures Leaves(m, s, m.ds + [v])
  {
    hide WellFormed, Resolves, HandleWord, Handle, Meaning, Depth, Steps, Var;
    OneLiteral(v, m.ds);
    var ds: stack := m.ds + [v];
    forall fuel: nat | fuel >= 4
      ensures LeavesIn(m, s, ds, fuel)
    {
      InterpretCall(m, s, i.code, i.body, fuel);
      HandleIsHandleWord(m, s, fuel);
    }
  }

  lemma OneLiteral(v: cell, ds: stack)
    requires |ds| < 32
    ensures Meaning([Lit(v)], ds) == Ok(ds + [v]) && Depth([Lit(v)]) == 0 && Steps([Lit(v)]) == 1
  {
    assert [Lit(v)][1..] == [];
  }

  lemma NegativeName()
    ensures WordName(2) == [60, 48]
  {
    NameIs(2, "<0", [60, 48]);
  }

  lemma PlusName()
    ensures WordName(5) == [43]
  {
    NameIs(5, "+", [43]);
  }

  lemma MinusName()
    ensures WordName(6) == [45]
  {
    NameIs(6, "-", [45]);
  }

  lemma TimesName()
    ensures WordName(7) == [42]
  {
    NameIs(7, "*", [42]);
  }

  lemma QuotientName()
    ensures WordName(8) == [47]
  {
    NameIs(8, "/", [47]);
  }

  lemma RemainderName()
    ensures WordName(9) == [37]
  {
    NameIs(9, "%", [37]);
  }

  lemma DropName()
    ensures WordName(10) == [100, 114, 111, 112]
  {
    NameIs(10, "drop", [100, 114, 111, 112]);
  }

  lemma DupName()
    ensures WordName(11) == [100, 117, 112]
  {
    NameIs(11, "dup", [100, 117, 112]);
  }

  lemma SwapName()
    ensures WordName(16) == [115, 119, 97, 112]
  {
    NameIs(16, "swap", [115, 119, 97, 112]);
  }

  lemma RotName()
    ensures WordName(17) == [114, 111, 116]
  {
    NameIs(17, "rot", [114, 111, 116]);
  }

  lemma EqualsName()
    ensures WordName(24) == [61]
  {
    NameIs(24, "=", [61]);
  }

  lemma PickName()
    ensures WordName(26) == [112, 105, 99, 107]
  {
    NameIs(26, "pick", [112, 105, 99, 107]);
  }

  lemma AndName()
    ensures WordName(31) == [38]
  {
    NameIs(31, "&", [38]);
  }

  // The words there are after booting, by the bytes of their names: first the primitives
  // with their operation numbers, then the user variables with theirs.

  lemma FirstWords()
    ensures IsPrimitive([101, 120, 105, 116], 0, false)
    ensures IsPrimitive([108, 105, 116], 1, false)
    ensures IsPrimitive([60, 48], 2, false)
    ensures IsPrimitive([58], 3, false)
    ensures IsPrimitive([59], 4, true)
    ensures IsPrimitive([43], 5, false)
    ensures IsPrimitive([45], 6, false)
  {
    hide WordName, IsPrimitive;
    NameIs(0, "exit", [101, 120, 105, 116]);
    PrimitiveWord([101, 120, 105, 116], 0, false);
    NameIs(1, "lit", [108, 105, 116]);
    PrimitiveWord([108, 105, 116], 1, false);
    NegativeName();
    PrimitiveWord([60, 48], 2, false);
    NameIs(3, ":", [58]);
    PrimitiveWord([58], 3, false);
    NameIs(4, ";", [59]);
    PrimitiveWord([59], 4, true);
    PlusName();
    PrimitiveWord([43], 5, false);
    MinusName();
    PrimitiveWord([45], 6, false);
  }

  lemma SecondWords()
    ensures IsPrimitive([42], 7, false)
    ensures IsPrimitive([47], 8, false)
    ensures IsPrimitive([37], 9, false)
    ensures IsPrimitive([100, 114, 111, 112], 10, false)
    ensures IsPrimitive([100, 117, 112], 11, false)
    ensures IsPrimitive([112, 105, 99, 107, 114], 12, false)
    ensures IsPrimitive([105, 109, 109, 101, 100, 105, 97, 116, 101], 13, true)
  {
    hide WordName, IsPrimitive;
    TimesName();
    PrimitiveWord([42], 7, false);
    QuotientName();
    PrimitiveWord([47], 8, false);
    RemainderName();
    PrimitiveWord([37], 9, false);
    DropName();
    PrimitiveWord([100, 114, 111, 112], 10, false);
    DupName();
    PrimitiveWord([100, 117, 112], 11, false);
    NameIs(12, "pickr", [112, 105, 99, 107, 114]);
    PrimitiveWord([112, 105, 99, 107, 114], 12, false);
    NameIs(13, "immediate", [105, 109, 109, 101, 100, 105, 97, 116, 101]);
    PrimitiveWord([105, 109, 109, 101, 100, 105, 97, 116, 101], 13, true);
  }

  lemma ThirdWords()
    ensures IsPrimitive([64, 64], 14, false)
    ensures IsPrimitive([33, 33], 15, false)
    ensures IsPrimitive([115, 119, 97, 112], 16, false)
    ensures IsPrimitive([114, 111, 116], 17, false)
    ensures IsPrimitive([106, 109, 112], 18, false)
    ensures IsPrimitive([106, 109, 112, 48], 19, false)
    ensures IsPrimitive([39], 20, false)
  {
    hide WordName, IsPrimitive;
    NameIs(14, "@@", [64, 64]);
    PrimitiveWord([64, 64], 14, false);
    NameIs(15, "!!", [33, 33]);
    PrimitiveWord([33, 33], 15, false);
    SwapName();
    PrimitiveWord([115, 119, 97, 112], 16, false);
    RotName();
    PrimitiveWord([114, 111, 116], 17, false);
    NameIs(18, "jmp", [106, 109, 112]);
    PrimitiveWord([106, 109, 112], 18, false);
    NameIs(19, "jmp0", [106, 109, 112, 48]);
    PrimitiveWord([106, 109, 112, 48], 19, false);
    NameIs(20, "'", [39]);
    PrimitiveWord([39], 20, false);
  }

  lemma FourthWords()
    ensures IsPrimitive([40], 21, true)
    ensures IsPrimitive([62, 114], 22, false)
    ensures IsPrimitive([114, 62], 23, false)
    ensures IsPrimitive([61], 24, false)
    ensures IsPrimitive([115, 121, 115], 25, false)
    ensures IsPrimitive([112, 105, 99, 107], 26, false)
    ensures IsPrimitive([44, 44], 27, false)
  {
    hide WordName, IsPrimitive;
    NameIs(21, "(", [40]);
    PrimitiveWord([40], 21, true);
    NameIs(22, ">r", [62, 114]);
    PrimitiveWord([62, 114], 22, false);
    NameIs(23, "r>", [114, 62]);
    PrimitiveWord([114, 62], 23, false);
    EqualsName();
    PrimitiveWord([61], 24, false);
    NameIs(25, "sys", [115, 121, 115]);
    PrimitiveWord([115, 121, 115], 25, false);
    PickName();
    PrimitiveWord([112, 105, 99, 107], 26, false);
    NameIs(27, ",,", [44, 44]);
    PrimitiveWord([44, 44], 27, false);
  }

  lemma FifthWords()
    ensures IsPrimitive([107, 101, 121], 28, false)
    ensures IsPrimitive([108, 105, 116, 115], 29, false)
    ensures IsPrimitive([35, 35], 30, false)
    ensures IsPrimitive([38], 31, false)
    ensures IsPrimitive([112, 64], 32, false)
    ensures IsPrimitive([112, 33], 33, false)
  {
    hide WordName, IsPrimitive;
    NameIs(28, "key", [107, 101, 121]);
    PrimitiveWord([107, 101, 121], 28, false);
    NameIs(29, "lits", [108, 105, 116, 115]);
    PrimitiveWord([108, 105, 116, 115], 29, false);
    NameIs(30, "##", [35, 35]);
    PrimitiveWord([35, 35], 30, false);
    AndName();
    PrimitiveWord([38], 31, false);
    NameIs(32, "p@", [112, 64]);
    PrimitiveWord([112, 64], 32, false);
    NameIs(33, "p!", [112, 33]);
    PrimitiveWord([112, 33], 33, false);
  }

  lemma VariableWords()
    ensures IsVariable([104], 0)
    ensures IsVariable([108, 97, 116, 101, 115, 116], 1)
    ensures IsVariable([116, 114, 97, 99, 101], 2)
  {
    hide WordName, IsVariable;
    NameIs(34, "h", [104]);
    VariableWord([104], 34);
    NameIs(35, "latest", [108, 97, 116, 101, 115, 116]);
    VariableWord([108, 97, 116, 101, 115, 116], 35);
    NameIs(36, "trace", [116, 114, 97, 99, 101]);
    VariableWord([116, 114, 97, 99, 101], 36);
  }

  lemma LastWords()
    ensures IsVariable([99, 111, 109, 112, 105, 108, 105, 110, 103], 3)
    ensures IsVariable([95, 112, 111, 115, 116, 112, 111, 110, 101], 4)
  {
    hide WordName, IsVariable;
    NameIs(37, "compiling", [99, 111, 109, 112, 105, 108, 105, 110, 103]);
    VariableWord([99, 111, 109, 112, 105, 108, 105, 110, 103], 37);
    NameIs(38, "_postpone", [95, 112, 111, 115, 116, 112, 111, 110, 101]);
    VariableWord([95, 112, 111, 115, 116, 112, 111, 110, 101], 38);
  }

  // --------------------------------------------------------------- numbers

  lemma BootedOnly(m: machine)
    requires Booted(m)
    ensures WellFormed(m.dict) && OnlyWords(m.dict, WORD_COUNT)
  {
    hide Var, Present, Bootstrap, Init, WellFormed, CompilerWords, OnlyWords;
    var d, trace, first :| first == 0 && BootedFrom(m, d, trace, first);
    BootstrapEstablishes(d, trace);
  }

  /** x, or the nearest number of 32 bits. */
  function Confined(x: int): int {
    if x > 2147483647 then 2147483647 else if x < -2147483648 then -2147483648 else x
  }

  /** It begins with a digit, or has a sign and more behind it. */
  predicate LooksNumeric(s: seq<byte>) {
    s != [] && (48 <= s[0] < 58 || (s[0] in {43, 45} && |s| >= 2))
  }

  lemma NamesLookOtherwise(k: entry)
    ensures !LooksNumeric(WordName(k))
  {
    SpellingLooks(k);
    hide Spelling;
    var s := Spelling(k);
    assert WordName(k)[0] == s[0] as int % 256;
    SpellingAscii(k);
  }

  lemma SpellingLooks(k: entry)
    ensures var s := Spelling(k);
            |s| > 0 && !('0' <= s[0] <= '9') && (s[0] in {'+', '-'} ==> |s| == 1)
  {
  }

  lemma {:induction false} NumeralLooks(sign: seq<byte>, prefix: seq<byte>, digits: seq<byte>, ds: seq<nat>, b: nat)
    requires Numeral([], sign, prefix, digits, ds, [], 0, b)
    ensures LooksNumeric(sign + prefix + digits)
  {
    hide IsDigitChar;
    var s := sign + prefix + digits;
    if sign != [] {
      assert s[0] == sign[0];
    } else if prefix != [] {
      assert s[0] == prefix[0];
    } else {
      assert s[0] == digits[0];
      FirstDigit(digits[0], ds[0]);
    }
  }

  lemma FirstDigit(c: byte, d: nat)
    requires IsDigitChar(c, d) && d < 10
    ensures c == 48 + d
  {
    LowerChars(d);
    UpperChars(d);
    hide LOWER, UPPER;
  }

  /** What looks like a number is none of the words. */
  lemma NoWord(m: machine, s: name)
    requires Booted(m) && LooksNumeric(s)
    ensures WellFormed(m.dict) && Lookup(m.dict, s) == None
  {
    BootedOnly(m);
    hide Booted, WellFormed, Lookup, WordName, LooksNumeric;
    if Lookup(m.dict, s).Some? {
      var j: nat :| 0 <= j < WORD_COUNT && s == WordName(j);
      NamesLookOtherwise(j);
      assert false;
    }
  }

  /** The value of a numeral. */
  function ValueOfNumeral(sign: seq<byte>, ds: seq<nat>, b: nat): cell {
    var h: int := Horner(ds, b);
    Confined(if sign == [45] then 0 - h else h)
  }

  lemma {:induction false} NumeralParses(sign: seq<byte>, prefix: seq<byte>, digits: seq<byte>, ds: seq<nat>, b: nat,
                                         s: name)
    requires Numeral([], sign, prefix, digits, ds, [], 0, b) && s == sign + prefix + digits
    ensures ParseNumber(s) == Some(ValueOfNumeral(sign, ds, b))
  {
    hide Numeral, StrtolOf, Horner;
    StrtolReads([], sign, prefix, digits, ds, [], 0, b);
    assert [] + sign + prefix + digits + [] == s && [] + sign + prefix + digits == s;
  }

  /** A number, in decimal, in octal after `0` or in hexadecimal after `0x`, pushes its value. */
  lemma {:induction false} NumberTakes(sign: seq<byte>, prefix: seq<byte>, digits: seq<byte>, ds: seq<nat>, b: nat,
                                       before: seq<cell>)
    requires Numeral([], sign, prefix, digits, ds, [], 0, b) && |sign + prefix + digits| <= 31 && |before| < 32
    ensures Takes(sign + prefix + digits, before, before + [ValueOfNumeral(sign, ds, b)])
  {
    NumeralLooks(sign, prefix, digits, ds, b);
    hide Booted, Leaves, ValueOfNumeral, Numeral, WellFormed, Lookup, Var, LooksNumeric, ParseNumber, Present;
    var s: name, v := sign + prefix + digits, ValueOfNumeral(sign, ds, b);
    var after := before + [v];
    NumeralParses(sign, prefix, digits, ds, b, s);
    forall m: machine | Booted(m) && m.ds == before
      ensures 1 <= |s| <= 31 && |after| <= 32 && Leaves(m, s, after)
    {
      NoWord(m, s);
      BootedIdle(m);
      LiteralTyped(m, s, v);
    }
  }

  lemma LiteralTyped(m: machine, s: name, v: cell)
    requires Idle(m) && Resolves(m.dict, s, Lit(v)) && |m.ds| < 32
    ensures Leaves(m, s, m.ds + [v])
  {
    hide WellFormed, Resolves, HandleWord, Handle, Var;
    var ds: stack := m.ds + [v];
    forall fuel: nat | fuel >= 4
      ensures LeavesIn(m, s, ds, fuel)
    {
      InterpretWord(m, s, Lit(v), fuel);
      HandleIsHandleWord(m, s, fuel);
    }
  }

  // ---------------------------------------------------------- compile mode

  /** What is compiled for a word: the operation number its code begins with, or the
      address of its code. */
  ghost predicate StandsFor(d: dict, hit: Hit, v: cell) {
    hit.header < 4096 &&
    var flags: int := d[hit.header];
    if flags / 32 % 2 == 1 then exists n: nat :: Lies(d, hit.code, v, n) else v == hit.code
  }

  /** Compiling is on, and the word is not immediate or POSTPONE is set. */
  predicate ToCompile(d: dict, hit: Hit) {
    hit.header < 4096 &&
    var flags: int := d[hit.header];
    Number(d[12..16]) != 0 && (Number(d[16..20]) != 0 || flags / 64 % 2 == 0)
  }

  /** Such a word is appended where HERE points, and POSTPONE is 0 again. */
  lemma WordCompiled(m: machine, s: name, v: cell, fuel: nat)
    requires WellFormed(m.dict) && m.input != PASS_WORD && Lookup(m.dict, s).Some?
    requires ToCompile(m.dict, Lookup(m.dict, s).value) && StandsFor(m.dict, Lookup(m.dict, s).value, v)
    ensures var here, w, r := Number(m.dict[..4]), |Encode(v)|, HandleWord(m, s, fuel);
            20 <= here < 4096 &&
            if here + w >= 4096 then r.Failed? && r.code == OUTSIDE_MEM
            else
              r.Next? && r.m == m.(dict := r.m.dict) && r.m.dict[here..here + w] == Encode(v) &&
              Number(r.m.dict[..4]) == here + w && Number(r.m.dict[16..20]) == 0 &&
              forall i :: 4 <= i < here && !(16 <= i < 20) ==> r.m.dict[i] == m.dict[i]
  {
    hide Number, Encode, AddCell, Var, SetVar, Lookup, WellFormed, Execute, GetCell, Lies;
    SmallHeader(m.dict, s);
    HereBound(m.dict);
    VariablesLie(m.dict);
    var hit := Lookup(m.dict, s).value;
    if n: nat :| Lies(m.dict, hit.code, v, n) {
      CellRead(m.dict, hit.code, v, n);
    }
    Compiled(m.dict, v);
  }

  lemma Compiled(d: dict, v: cell)
    requires HereOk(d)
    ensures var here, w, r := Number(d[..4]), |Encode(v)|, AddCell(d, v);
            if here + w >= 4096 then r.Abort?
            else
              var e := SetVar(r.d, POSTPONE, 0);
              r.Done? && e[here..here + w] == Encode(v) && Number(e[..4]) == here + w && Number(e[16..20]) == 0 &&
              forall i :: 4 <= i < here && !(16 <= i < 20) ==> e[i] == d[i]
  {
    hide Number, Encode, AddCell, Var, SetVar;
    VariablesLie(d);
    AddCellAppends(d, v);
    var r := AddCell(d, v);
    if r.Done? {
      var here := Var(d, HERE);
      var e := SetVar(r.d, POSTPONE, 0);
      SetVarReads(r.d, POSTPONE, 0);
      VariablesLie(e);
      assert e[here..here + |Encode(v)|] == r.d[here..here + |Encode(v)|];
    }
  }

  /** Any other word is carried out. */
  lemma WordExecuted(m: machine, s: name, code: word, fuel: nat)
    requires WellFormed(m.dict) && m.input != PASS_WORD && Lookup(m.dict, s).Some?
    requires code == Lookup(m.dict, s).value.code && !ToCompile(m.dict, Lookup(m.dict, s).value)
    ensures HandleWord(m, s, fuel) == OfRun(Run(m.(ip := code, rs := [0], input := INTERPRET), None, fuel))
  {
    hide Number, Var, Lookup, WellFormed, Run, GetCell;
    SmallHeader(m.dict, s);
    VariablesLie(m.dict);
  }
}
