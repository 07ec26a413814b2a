/** Compiling a word and then running it does what interpreting its body would
    have done (boot/zforth/zforth.c). */
module ZfCompile {
  import opened Words
  import opened Numbers
  import opened ZfCells
  import opened ZfDictionary
  import opened ZfMachine
  import opened ZfEval

  /** What a word of a definition's body stands for. A call carries, besides the
      address of its code, the meaning of that code. */
  datatype Item =
    | Lit(v: cell)
    | Prim(op: nat)
    | Call(code: word, body: seq<Item>)

  /** The reference meaning: what a list of items does to the data stack. */
  function Meaning(items: seq<Item>, ds: stack): StackResult
    decreases items
  {
    if items == [] then Ok(ds)
    else
      match ItemMeaning(items[0], ds)
      case Fail(code) => Fail(code)
      case Ok(ds1) => Meaning(items[1..], ds1)
  }

  function ItemMeaning(i: Item, ds: stack): StackResult
    decreases i
  {
    match i
    case Lit(v) => Push(ds, v)
    case Prim(op) => if StackPrim(op) then RunStackPrim(op, ds) else Fail(INTERNAL_ERROR)
    case Call(_, body) => Meaning(body, ds)
  }

  /** Return-stack cells the items need on top of what is there. */
  function Depth(items: seq<Item>): nat
    decreases items
  {
    if items == [] then 0
    else
      var a, b := ItemDepth(items[0]), Depth(items[1..]);
      if a < b then b else a
  }

  function ItemDepth(i: Item): nat
    decreases i
  {
    match i
    case Call(_, body) => 1 + Depth(body)
    case _ => 0
  }

  /** Turns of the run loop the items take when nothing aborts. */
  function Steps(items: seq<Item>): nat
    decreases items
  {
    if items == [] then 0 else ItemSteps(items[0]) + Steps(items[1..])
  }

  function ItemSteps(i: Item): nat
    decreases i
  {
    match i
    case Call(_, body) => Steps(body) + 2
    case _ => 1
  }

  // ------------------------------------------------------------------ code

  /** The cells an item is compiled to. */
  function ItemBytes(i: Item): seq<byte> {
    match i
    case Lit(v) => Encode(LIT) + Encode(v)
    case Prim(op) => Encode(ToCell(op))
    case Call(c, _) => Encode(ToCell(c))
  }

  function Bytes(items: seq<Item>): seq<byte>
    decreases |items|
  {
    if items == [] then [] else ItemBytes(items[0]) + Bytes(items[1..])
  }

  /** The compiled form of an item can be read at a, below lim, and so can the
      code of every word it calls. */
  ghost predicate ItemAt(d: dict, a: nat, i: Item, lim: nat)
    decreases i, 0
  {
    a + |ItemBytes(i)| <= lim &&
    match i
    case Lit(v) => GetCell(d, a) == Got(LIT, 1) && GetCell(d, a + 1) == Got(v, |Encode(v)|)
    case Prim(op) => StackPrim(op) && GetCell(d, a) == Got(op, 1)
    case Call(c, body) =>
      PRIM_COUNT < c && GetCell(d, a) == Got(ToCell(c), |Encode(ToCell(c))|) && BodyAt(d, c, body, lim)
  }

  ghost predicate ItemsAt(d: dict, a: nat, items: seq<Item>, lim: nat)
    decreases items, 0
  {
    items == [] ||
    (ItemAt(d, a, items[0], lim) && ItemsAt(d, a + |ItemBytes(items[0])|, items[1..], lim))
  }

  /** The items followed by `exit`. */
  ghost predicate BodyAt(d: dict, a: nat, items: seq<Item>, lim: nat)
    decreases items, 1
  {
    ItemsAt(d, a, items, lim) &&
    a + |Bytes(items)| + 1 <= lim && GetCell(d, a + |Bytes(items)|) == Got(EXIT, 1)
  }

  lemma {:induction false} ItemsAtFrame(d: dict, e: dict, a: nat, items: seq<Item>, lim: nat, lim': nat)
    requires ItemsAt(d, a, items, lim) && lim <= lim' && lim <= DICT_SIZE && FIRST_FREE <= a
    requires forall k :: FIRST_FREE <= k < lim ==> e[k] == d[k]
    ensures ItemsAt(e, a, items, lim')
    decreases items, 0
  {
    hide Encode;
    if items != [] {
      ItemAtFrame(d, e, a, items[0], lim, lim');
      ItemsAtFrame(d, e, a + |ItemBytes(items[0])|, items[1..], lim, lim');
    }
  }

  lemma {:induction false} ItemAtFrame(d: dict, e: dict, a: nat, i: Item, lim: nat, lim': nat)
    requires ItemAt(d, a, i, lim) && lim <= lim' && lim <= DICT_SIZE && FIRST_FREE <= a
    requires forall k :: FIRST_FREE <= k < lim ==> e[k] == d[k]
    ensures ItemAt(e, a, i, lim')
    decreases i, 0
  {
    hide Encode, GetCell, StackPrim;
    SmallCell(LIT);
    if i.Prim? {
      StackPrimCode(i.op);
      SmallCell(i.op);
    }
    GetCellFrame(d, e, a, lim);
    match i
    case Lit(v) => GetCellFrame(d, e, a + 1, lim);
    case Prim(op) =>
    case Call(c, body) => BodyAtFrame(d, e, c, body, lim, lim');
  }

  lemma {:induction false} BodyAtFrame(d: dict, e: dict, a: nat, items: seq<Item>, lim: nat, lim': nat)
    requires BodyAt(d, a, items, lim) && lim <= lim' && lim <= DICT_SIZE && FIRST_FREE <= a
    requires forall k :: FIRST_FREE <= k < lim ==> e[k] == d[k]
    ensures BodyAt(e, a, items, lim')
    decreases items, 1
  {
    hide GetCell, Encode;
    ItemsAtFrame(d, e, a, items, lim, lim');
    GetCellFrame(d, e, a + |Bytes(items)|, lim);
  }

  // ------------------------------------------------------------- execution

  /** What running code must come to, given what its items mean. */
  function After(m: machine, ip: nat, r: StackResult, fuel: nat): RunResult
    requires m.input == INTERPRET
  {
    match r
    case Ok(ds) => Run(m.(ip := ToWord(ip), ds := ds), None, fuel)
    case Fail(code) => RunAborted(m.dict, code)
  }

  /** Running compiled items does to the stack what they mean, however deeply they
      call each other, and then goes on behind them. */
  lemma {:induction false} RunItems(m: machine, items: seq<Item>, lim: nat, fuel: nat)
    requires m.input == INTERPRET && m.ip != 0 && lim <= DICT_SIZE
    requires ItemsAt(m.dict, m.ip, items, lim)
    requires |m.rs| + Depth(items) <= RSTACK_SIZE
    ensures Run(m, None, Steps(items) + fuel) ==
            After(m, m.ip + |Bytes(items)|, Meaning(items, m.ds), fuel)
    decreases items, 0
  {
    hide Encode, Run, ItemBytes, ItemAt, ItemMeaning, ItemSteps, ItemDepth;
    if items == [] {
      assert m.(ip := ToWord(m.ip), ds := m.ds) == m;
    } else {
      var i, rest := items[0], items[1..];
      RunItem(m, i, lim, Steps(rest) + fuel);
      var r := ItemMeaning(i, m.ds);
      if r.Ok? {
        ItemAtEnd(m.dict, m.ip, i, lim);
        RunItems(m.(ip := m.ip + |ItemBytes(i)|, ds := r.ds), rest, lim, fuel);
      }
    }
  }

  lemma ItemAtEnd(d: dict, a: nat, i: Item, lim: nat)
    requires ItemAt(d, a, i, lim)
    ensures a + |ItemBytes(i)| <= lim
  {
  }

  lemma {:induction false} RunItem(m: machine, i: Item, lim: nat, fuel: nat)
    requires m.input == INTERPRET && m.ip != 0 && lim <= DICT_SIZE
    requires ItemAt(m.dict, m.ip, i, lim)
    requires |m.rs| + ItemDepth(i) <= RSTACK_SIZE
    ensures Run(m, None, ItemSteps(i) + fuel) ==
            After(m, m.ip + |ItemBytes(i)|, ItemMeaning(i, m.ds), fuel)
    decreases i, 0
  {
    hide Encode, StackPrim, RunStackPrim, Run, Step, GetCell;
    match i
    case Lit(v) =>
      SmallCell(LIT);
      StepLit(m, v, |Encode(v)|);
      RunOne(m, fuel);
      ResumeStack(m, m.ip + 1 + |Encode(v)|, Push(m.ds, v), fuel);
    case Prim(op) =>
      StackPrimCode(op);
      SmallCell(op);
      StepPrim(m, op);
      RunOne(m, fuel);
      ResumeStack(m, m.ip + 1, RunStackPrim(op, m.ds), fuel);
    case Call(c, body) => RunCall(m, c, body, lim, fuel);
  }

  lemma ResumeStack(m: machine, ip: nat, r: StackResult, fuel: nat)
    requires m.input == INTERPRET
    ensures Resume(OfStack(m.(ip := ToWord(ip)), r), fuel) == After(m, ip, r, fuel)
  {
    hide Run;
  }

  lemma StepLit(m: machine, v: cell, n: nat)
    requires m.ip < DICT_SIZE && n <= 5 && m.input == INTERPRET
    requires GetCell(m.dict, m.ip) == Got(LIT, 1) && GetCell(m.dict, m.ip + 1) == Got(v, n)
    ensures Step(m, None) == OfStack(m.(ip := ToWord(m.ip + 1 + n)), Push(m.ds, v))
  {
    hide GetCell, RunStackPrim, ReturnPrim, InputPrim, SemicolPrim, PeekPrim, PokePrim, CommaPrim,
      OfDict, MakeImmediate;
    assert Operand(Skip(m, 1)) == Got(v, n);
  }

  lemma StepPrim(m: machine, op: nat)
    requires m.ip < DICT_SIZE && m.input == INTERPRET && StackPrim(op)
    requires GetCell(m.dict, m.ip) == Got(op, 1)
    ensures Step(m, None) == OfStack(m.(ip := ToWord(m.ip + 1)), RunStackPrim(op, m.ds))
  {
    hide GetCell, RunStackPrim, StackPrim, DoPrim;
    StackPrimCode(op);
    DoPrimStack(Skip(m, 1), op);
  }

  lemma DoPrimStack(m: machine, op: nat)
    requires StackPrim(op) && op <= PRIM_COUNT
    ensures DoPrim(m, op, None) == OfStack(m, RunStackPrim(op, m.ds))
  {
    hide RunStackPrim, OfStack, StackPrim, ReturnPrim, OperandPrim, InputPrim, SemicolPrim,
      PeekPrim, PokePrim, CommaPrim, OfDict, MakeImmediate;
  }

  lemma StackPrimCode(op: nat)
    requires StackPrim(op)
    ensures op <= PRIM_COUNT && op < 128
  {
  }

  function Resume(o: Outcome, fuel: nat): RunResult {
    match o
    case Aborted(d, code) => RunAborted(d, code)
    case Foreign(m1, op) => RunForeign(m1, op)
    case Running(m1) => if m1.input != INTERPRET then Suspended(m1) else Run(m1, None, fuel)
  }

  lemma RunOne(m: machine, fuel: nat)
    requires m.input == INTERPRET && m.ip != 0
    ensures Run(m, None, fuel + 1) == Resume(Step(m, None), fuel)
  {
    hide Step;
  }

  lemma {:induction false} RunCall(m: machine, c: word, body: seq<Item>, lim: nat, fuel: nat)
    requires m.input == INTERPRET && m.ip != 0 && lim <= DICT_SIZE
    requires ItemAt(m.dict, m.ip, Call(c, body), lim)
    requires |m.rs| + 1 + Depth(body) <= RSTACK_SIZE
    ensures Run(m, None, Steps(body) + 2 + fuel) ==
            After(m, m.ip + |Encode(ToCell(c))|, Meaning(body, m.ds), fuel)
    decreases body, 1
  {
    hide Encode, Run, Meaning, Depth, Bytes, Steps, GetCell, ItemsAt, ToCell;
    var back := m.ip + |Encode(ToCell(c))|;
    var m1 := m.(rs := m.rs + [ToCell(back)], ip := c);
    WordCellInverse(c);
    StepCall(m, c, |Encode(ToCell(c))|);
    RunOne(m, Steps(body) + 1 + fuel);
    hide Step;
    RunItems(m1, body, lim, fuel + 1);
    var r := Meaning(body, m.ds);
    if r.Ok? {
      var m2 := m1.(ip := c + |Bytes(body)|, ds := r.ds);
      RunExit(m2, fuel);
      assert m2.rs[..|m2.rs| - 1] == m.rs;
      WordCellInverse(back);
    }
  }

  lemma StepCall(m: machine, c: word, n: nat)
    requires GetCell(m.dict, m.ip) == Got(ToCell(c), n) && PRIM_COUNT < c && |m.rs| < RSTACK_SIZE
    ensures Step(m, None) == Running(m.(rs := m.rs + [ToCell(m.ip + n)], ip := c))
  {
    WordCellInverse(c);
    hide GetCell;
  }

  lemma RunExit(m: machine, fuel: nat)
    requires m.input == INTERPRET && m.ip != 0 && m.rs != []
    requires GetCell(m.dict, m.ip) == Got(EXIT, 1)
    ensures Run(m, None, fuel + 1) ==
            Run(m.(ip := ToWord(m.rs[|m.rs| - 1]), rs := m.rs[..|m.rs| - 1]), None, fuel)
  {
    hide Run;
    RunOne(m, fuel);
  }

  // ------------------------------------------------------------ resolution

  /** A word with the given code and flags is what s names. */
  ghost predicate Names(d: dict, s: name, code: nat, prim: bool, immediate: bool)
    requires WellFormed(d)
  {
    Lookup(d, s).Some? && Lookup(d, s).value.code == code &&
    GetCell(d, Lookup(d, s).value.header).Got? &&
    var flags := GetCell(d, Lookup(d, s).value.header).value;
    (flags / 32 % 2 == 1 <==> prim) && (flags / 64 % 2 == 1 <==> immediate)
  }

  /** The code of a primitive: its number and `exit`. */
  ghost predicate PrimCode(d: dict, code: nat, op: nat) {
    FIRST_FREE <= code && code + 2 <= Var(d, HERE) < DICT_SIZE && op < PRIM_COUNT &&
    GetCell(d, code) == Got(op, 1) && GetCell(d, code + 1) == Got(EXIT, 1)
  }

  /** What a word of a body is taken for in dictionary d. */
  ghost predicate Resolves(d: dict, s: name, i: Item)
    requires WellFormed(d)
  {
    match i
    case Lit(v) => Lookup(d, s) == None && ParseNumber(s) == Some(v)
    case Prim(op) => StackPrim(op) && exists code: nat :: Names(d, s, code, true, false) && PrimCode(d, code, op)
    case Call(c, body) =>
      Names(d, s, c, false, false) && PRIM_COUNT < c && BodyAt(d, c, body, Var(d, HERE))
  }

  /** Neither compiling nor waiting for input. */
  ghost predicate Idle(m: machine) {
    WellFormed(m.dict) && m.input == INTERPRET &&
    Var(m.dict, COMPILING) == 0 && Var(m.dict, POSTPONE) == 0
  }

  /** The state after interpreting something that meant r: the same dictionary, the
      new data stack. */
  ghost predicate Does(m: machine, w: WordResult, r: StackResult) {
    match r
    case Ok(ds) => w.Next? && w.m.dict == m.dict && w.m.ds == ds && w.m.input == INTERPRET
    case Fail(code) => w == Failed(m.dict, code)
  }

  lemma HandleNamed(m: machine, s: name, code: word, prim: bool, fuel: nat)
    requires Idle(m) && Names(m.dict, s, code, prim, false)
    ensures HandleWord(m, s, fuel) == Execute(m, code, fuel)
  {
    hide Execute, Lookup, Var, WellFormed, GetCell;
  }

  /** Executing compiled code: the items' meaning, once there is fuel for it. */
  lemma ExecuteItems(m: machine, c: word, items: seq<Item>, lim: nat, fuel: nat)
    requires c != 0 && lim <= DICT_SIZE && BodyAt(m.dict, c, items, lim)
    requires 1 + Depth(items) <= RSTACK_SIZE && fuel >= Steps(items) + 1
    ensures Does(m, Execute(m, c, fuel), Meaning(items, m.ds))
  {
    hide Meaning, Depth, Steps, Bytes, Encode, GetCell, Run, ItemsAt;
    var m1 := m.(ip := c, rs := [0], input := INTERPRET);
    var more := fuel - Steps(items) - 1;
    RunItems(m1, items, lim, 1 + more);
    var r := Meaning(items, m.ds);
    if r.Ok? {
      var m2 := m1.(ip := c + |Bytes(items)|, ds := r.ds);
      RunExit(m2, more);
      RunHalted(m2.(ip := 0, rs := []), more);
    }
  }

  lemma RunHalted(m: machine, fuel: nat)
    requires m.input == INTERPRET && m.ip == 0
    ensures Run(m, None, fuel) == Halted(m)
  {
  }

  /** Executing a primitive's own code. */
  lemma ExecutePrim(m: machine, c: word, op: nat, fuel: nat)
    requires StackPrim(op) && PrimCode(m.dict, c, op) && fuel >= 2
    ensures Does(m, Execute(m, c, fuel), RunStackPrim(op, m.ds))
  {
    hide StackPrim, GetCell, RunStackPrim, Run, Step;
    var m1 := m.(ip := c, rs := [0], input := INTERPRET);
    StepPrim(m1, op);
    RunOne(m1, fuel - 1);
    ResumeStack(m1, c + 1, RunStackPrim(op, m.ds), fuel - 1);
    var r := RunStackPrim(op, m.ds);
    if r.Ok? {
      var m2 := m1.(ip := c + 1, ds := r.ds);
      RunExit(m2, fuel - 2);
      RunHalted(m2.(ip := 0, rs := []), fuel - 2);
    }
  }

  /** Interpreting one word does what it stands for. */
  lemma InterpretWord(m: machine, s: name, i: Item, fuel: nat)
    requires Idle(m) && Resolves(m.dict, s, i)
    requires 1 + ItemDepth(i) <= RSTACK_SIZE && fuel >= ItemSteps(i) + 1
    ensures Does(m, HandleWord(m, s, fuel), ItemMeaning(i, m.ds))
  {
    hide Lookup, Var, ParseNumber, GetCell, Execute, StackPrim, RunStackPrim, BodyAt, PrimCode, Chain;
    match i
    case Lit(v) =>
    case Prim(op) =>
      var code: nat :| Names(m.dict, s, code, true, false) && PrimCode(m.dict, code, op);
      PrimCodeRange(m.dict, code, op);
      HandleNamed(m, s, code, true, fuel);
      ExecutePrim(m, code, op, fuel);
    case Call(c, body) => InterpretCall(m, s, c, body, fuel);
  }

  lemma InterpretCall(m: machine, s: name, c: word, body: seq<Item>, fuel: nat)
    requires Idle(m) && Resolves(m.dict, s, Call(c, body))
    requires 1 + Depth(body) <= RSTACK_SIZE && fuel >= Steps(body) + 1
    ensures Does(m, HandleWord(m, s, fuel), Meaning(body, m.ds))
  {
    hide Lookup, Var, GetCell, Execute, BodyAt, WellFormed, Depth, Steps, Meaning;
    HereBound(m.dict);
    HandleNamed(m, s, c, false, fuel);
    ExecuteItems(m, c, body, Var(m.dict, HERE), fuel);
  }

  lemma PrimCodeRange(d: dict, code: nat, op: nat)
    requires PrimCode(d, code, op)
    ensures FIRST_FREE <= code < DICT_SIZE
  {
  }

  /** A list of words, followed as long as each completes, the dictionary stays well
      formed and no primitive asks for a single character. */
  ghost function HandleWords(m: machine, words: seq<name>, fuel: nat): WordResult
    requires WellFormed(m.dict)
    decreases |words|
  {
    if words == [] then Next(m)
    else
      var w := HandleWord(m, words[0], fuel);
      if !w.Next? then w
      else if WellFormed(w.m.dict) && w.m.input != PASS_CHAR then HandleWords(w.m, words[1..], fuel)
      else Unfinished(w.m)
  }

  /** Interpreting a list of words one by one does what the list stands for. */
  lemma {:induction false} InterpretWords(m: machine, words: seq<name>, items: seq<Item>, fuel: nat)
    requires Idle(m) && |words| == |items|
    requires forall k :: 0 <= k < |words| ==> Resolves(m.dict, words[k], items[k])
    requires 1 + Depth(items) <= RSTACK_SIZE && fuel >= Steps(items) + 1
    ensures Does(m, HandleWords(m, words, fuel), Meaning(items, m.ds))
    decreases |words|
  {
    hide Resolves, HandleWord, ItemMeaning, ItemSteps, ItemDepth;
    if words != [] {
      InterpretWord(m, words[0], items[0], fuel);
      var w := HandleWord(m, words[0], fuel);
      if w.Next? {
        InterpretWords(w.m, words[1..], items[1..], fuel);
      }
    }
  }

  // ------------------------------------------------------------- compiling

  /** d has everything d0 has below d0's HERE. */
  ghost predicate Extends(d0: dict, d: dict) {
    WellFormed(d0) && WellFormed(d) && Var(d0, HERE) <= Var(d, HERE) &&
    forall k :: FIRST_FREE <= k < Var(d0, HERE) ==> d[k] == d0[k]
  }

  lemma NamesFrame(d0: dict, d: dict, s: name, code: nat, prim: bool, immediate: bool)
    requires Extends(d0, d) && Lookup(d, s) == Lookup(d0, s)
    requires Names(d0, s, code, prim, immediate)
    ensures Names(d, s, code, prim, immediate)
  {
    hide GetCell, Var, Chain, Find, HeaderAt;
    FindSound(d0, s, Var(d0, LATEST), Var(d0, HERE));
    var h := Lookup(d0, s).value.header;
    OneByteCell(d0, h);
    GetCellFrame(d0, d, h, Var(d0, HERE));
  }

  lemma PrimCodeFrame(d0: dict, d: dict, code: nat, op: nat)
    requires Extends(d0, d) && PrimCode(d0, code, op)
    ensures PrimCode(d, code, op)
  {
    hide GetCell, Var, Chain, Find;
    GetCellFrame(d0, d, code, Var(d0, HERE));
    GetCellFrame(d0, d, code + 1, Var(d0, HERE));
  }

  /** What a word resolves to is not disturbed by later definitions of other names. */
  lemma ResolvesFrame(d0: dict, d: dict, s: name, i: Item)
    requires Extends(d0, d) && Lookup(d, s) == Lookup(d0, s) && Resolves(d0, s, i)
    ensures Resolves(d, s, i)
  {
    hide GetCell, Var, Chain, Find, Lookup, Names, PrimCode, BodyAt, ParseNumber, StackPrim, WellFormed;
    match i
    case Lit(v) =>
    case Prim(op) =>
      var code: nat :| Names(d0, s, code, true, false) && PrimCode(d0, code, op);
      NamesFrame(d0, d, s, code, true, false);
      PrimCodeFrame(d0, d, code, op);
    case Call(c, body) =>
      NamesFrame(d0, d, s, c, false, false);
      HereBound(d0);
      BodyAtFrame(d0, d, c, body, Var(d0, HERE), Var(d, HERE));
  }

  lemma HereBound(d: dict)
    requires WellFormed(d)
    ensures FIRST_FREE <= Var(d, HERE) < DICT_SIZE
  {
  }

  /** In the middle of defining n: its header is in place, the items so far are
      compiled right behind it, every other name means what it did. */
  ghost predicate Defining(d0: dict, d: dict, n: name, code: nat, items: seq<Item>) {
    Extends(d0, d) && Var(d, COMPILING) == 1 && Var(d, POSTPONE) == 0 &&
    Var(d0, HERE) < code && GetCell(d, Var(d0, HERE)) == Got(|n|, 1) &&
    code + |Bytes(items)| == Var(d, HERE) && d[code..Var(d, HERE)] == Bytes(items) &&
    forall t: name :: Lookup(d, t) == if t == n then Some(Hit(Var(d0, HERE), code)) else Lookup(d0, t)
  }

  lemma {:induction false} BytesAppend(items: seq<Item>, i: Item)
    ensures Bytes(items + [i]) == Bytes(items) + ItemBytes(i)
    decreases |items|
  {
    hide ItemBytes;
    if items == [] {
      assert [i][1..] == [];
    } else {
      BytesAppend(items[1..], i);
      assert (items + [i])[1..] == items[1..] + [i];
    }
  }

  /** Appending bytes to a dictionary under definition. */
  lemma DefiningAppends(d0: dict, d: dict, r: Result, n: name, code: nat, items: seq<Item>, i: Item)
    requires Defining(d0, d, n, code, items)
    requires Appends(d, r, ItemBytes(i)) && r.Done?
    ensures Defining(d0, r.d, n, code, items + [i])
  {
    hide Var, GetCell, ItemBytes, Bytes, WellFormed, Lookup;
    HereBound(d);
    HereBound(d0);
    var a, b := Var(d, HERE), Var(r.d, HERE);
    AppendsKeepsVar(d, r, ItemBytes(i), COMPILING);
    AppendsKeepsVar(d, r, ItemBytes(i), POSTPONE);
    AppendsKeepsVar(d, r, ItemBytes(i), LATEST);
    BytesAppend(items, i);
    assert r.d[code..b] == r.d[code..a] + r.d[a..b];
    assert r.d[code..a] == d[code..a];
    GetCellFrame(d, r.d, Var(d0, HERE), code);
    forall t: name
      ensures WellFormed(r.d) && Lookup(r.d, t) == Lookup(d, t)
    {
      GrowKeepsFinds(d, r.d, t);
    }
    GrowKeepsFinds(d, r.d, n);
  }

  /** Storing the value a user variable already has changes nothing. */
  lemma SetVarSame(d: dict, u: UserVar)
    ensures SetVar(d, u, Var(d, u)) == d
  {
    hide Le, WordAt;
    WordImage(d[u.Offset()..u.Offset() + 4]);
  }

  lemma AddLiteralAppends(d: dict, v: cell)
    requires HereOk(d)
    ensures Appends(d, AddLiteral(d, v), ItemBytes(Lit(v)))
  {
    hide Encode, AddCell, Appends, HereOk;
    var r1 := AddCell(d, LIT);
    AddCellAppends(d, LIT);
    AppendsHereOk();
    if r1.Done? {
      AddCellAppends(r1.d, v);
      AppendsThen(d, r1, AddCell(r1.d, v), Encode(LIT), Encode(v));
    } else {
      AppendsThen(d, r1, r1, Encode(LIT), Encode(v));
    }
  }

  /** Compiling a found word that is not immediate. */
  lemma HandleCompiled(m: machine, s: name, code: nat, prim: bool, fuel: nat)
    requires WellFormed(m.dict) && m.input == INTERPRET && Var(m.dict, COMPILING) != 0
    requires Var(m.dict, POSTPONE) == 0 && Names(m.dict, s, code, prim, false)
    requires prim ==> GetCell(m.dict, code).Got?
    ensures var r := AddCell(m.dict, if prim then GetCell(m.dict, code).value else ToCell(code));
            r.Done? && Var(r.d, POSTPONE) == 0 ==> HandleWord(m, s, fuel) == Next(m.(dict := r.d))
  {
    hide Execute, Lookup, Var, WellFormed, GetCell, AddCell, SetVar;
    var r := AddCell(m.dict, if prim then GetCell(m.dict, code).value else ToCell(code));
    SetVarSame(r.d, POSTPONE);
  }

  /** What compiling one item does to a dictionary. */
  function Compiled(d: dict, i: Item): Result {
    match i
    case Lit(v) => AddLiteral(d, v)
    case Prim(op) => AddCell(d, ToCell(op))
    case Call(c, _) => AddCell(d, ToCell(c))
  }

  lemma CompiledAppends(d: dict, i: Item)
    requires HereOk(d)
    ensures Appends(d, Compiled(d, i), ItemBytes(i))
  {
    hide Encode, AddCell, Appends, HereOk, AddLiteral;
    match i
    case Lit(v) => AddLiteralAppends(d, v);
    case Prim(op) => AddCellAppends(d, ToCell(op));
    case Call(c, _) => AddCellAppends(d, ToCell(c));
  }

  /** In compile mode a word appends its item's cells and does nothing else. */
  lemma CompileWord(d0: dict, m: machine, n: name, code: nat, items: seq<Item>, s: name, i: Item, fuel: nat)
    requires Defining(d0, m.dict, n, code, items) && m.input == INTERPRET
    requires s != n && Resolves(d0, s, i)
    requires Var(m.dict, HERE) + |ItemBytes(i)| < DICT_SIZE
    ensures HandleWord(m, s, fuel) == Next(m.(dict := Compiled(m.dict, i).d))
    ensures Defining(d0, Compiled(m.dict, i).d, n, code, items + [i])
  {
    hide Var, WellFormed, Lookup, ItemBytes, AddCell, AddLiteral, GetCell, StackPrim, Names, PrimCode, BodyAt,
      ParseNumber;
    var d := m.dict;
    HereBound(d);
    ResolvesFrame(d0, d, s, i);
    CompiledAppends(d, i);
    var r := Compiled(d, i);
    DefiningAppends(d0, d, r, n, code, items, i);
    match i
    case Lit(v) =>
    case Prim(op) =>
      var c: nat :| Names(d, s, c, true, false) && PrimCode(d, c, op);
      PrimCodeGet(d, c, op);
      HandleCompiled(m, s, c, true, fuel);
    case Call(c, body) => HandleCompiled(m, s, c, false, fuel);
  }

  lemma PrimCodeGet(d: dict, c: nat, op: nat)
    requires PrimCode(d, c, op)
    ensures GetCell(d, c) == Got(ToCell(op), 1)
  {
    hide GetCell;
  }

  lemma {:induction false} CompileWords(d0: dict, m: machine, n: name, code: nat, done: seq<Item>,
                                        words: seq<name>, items: seq<Item>, fuel: nat)
    returns (e: dict)
    requires Defining(d0, m.dict, n, code, done) && m.input == INTERPRET
    requires n !in words && |words| == |items|
    requires forall k :: 0 <= k < |words| ==> Resolves(d0, words[k], items[k])
    requires Var(m.dict, HERE) + |Bytes(items)| < DICT_SIZE
    ensures HandleWords(m, words, fuel) == Next(m.(dict := e))
    ensures Defining(d0, e, n, code, done + items)
    decreases |words|
  {
    hide Resolves, HandleWord, ItemBytes, Var, Compiled, Lookup, GetCell;
    if words == [] {
      e := m.dict;
      assert done + items == done;
    } else {
      var i := items[0];
      CompileWord(d0, m, n, code, done, words[0], i, fuel);
      var m1 := m.(dict := Compiled(m.dict, i).d);
      BytesAppend(done, i);
      e := CompileWords(d0, m1, n, code, done + [i], words[1..], items[1..], fuel);
      assert done + [i] + items[1..] == done + items;
    }
  }

  // ---------------------------------------------------- opening and closing

  const COLON: name := [58]
  const SEMI: name := [59]

  /** `:` and `;` are the primitives the bootstrap made them. */
  ghost predicate CompilerWords(d: dict, colon: nat, semi: nat)
    requires WellFormed(d)
  {
    Names(d, COLON, colon, true, false) && PrimCode(d, colon, COL) &&
    Names(d, SEMI, semi, true, true) && PrimCode(d, semi, SEMICOL)
  }

  lemma StepInput(m: machine, arg: input)
    requires m.ip < DICT_SIZE && m.input == INTERPRET && GetCell(m.dict, m.ip) == Got(COL, 1)
    ensures arg == None ==> Step(m, arg) == Running(m.(input := PASS_WORD))
    ensures arg.Some? && Create(m.dict, arg.value, 0).Done? ==>
              Step(m, arg) == Running(m.(ip := m.ip + 1, dict := SetVar(Create(m.dict, arg.value, 0).d, COMPILING, 1)))
  {
    hide GetCell, RunStackPrim, ReturnPrim, OperandPrim, SemicolPrim, PeekPrim, PokePrim, CommaPrim,
      OfDict, MakeImmediate, Create, SetVar;
  }

  lemma StepSemicol(m: machine)
    requires m.ip < DICT_SIZE && m.input == INTERPRET && GetCell(m.dict, m.ip) == Got(SEMICOL, 1)
    requires AddCell(m.dict, EXIT).Done?
    ensures Step(m, None) ==
            Running(m.(ip := m.ip + 1, dict := SetVar(AddCell(m.dict, EXIT).d, COMPILING, 0)))
  {
    hide GetCell, RunStackPrim, ReturnPrim, OperandPrim, InputPrim, PeekPrim, PokePrim, CommaPrim,
      OfDict, MakeImmediate, AddCell, SetVar;
  }

  /** `:` asks for a word and is called again when it comes. */
  lemma ColonWaits(m: machine, c: nat, fuel: nat)
    requires Idle(m) && Names(m.dict, COLON, c, true, false) && PrimCode(m.dict, c, COL) && fuel >= 1
    ensures c < DICT_SIZE
    ensures HandleWord(m, COLON, fuel) == Next(m.(ip := c, rs := [0], input := PASS_WORD))
  {
    hide GetCell, Step, Names, WellFormed, Var, HandleWord;
    HandleNamed(m, COLON, c, true, fuel);
    var m1 := m.(ip := c, rs := [0], input := INTERPRET);
    StepInput(m1, None);
  }

  lemma RunWithInput(m: machine, arg: input, m1: machine, fuel: nat)
    requires m.input == INTERPRET && m.ip != 0 && fuel >= 1
    requires Step(m, arg) == Running(m1) && m1.input == INTERPRET
    ensures Run(m, arg, fuel) == Run(m1, None, fuel - 1)
  {
    hide Step;
  }

  /** Creating a word leaves a dictionary in the middle of defining it. */
  lemma CreateDefines(d0: dict, d1: dict, n: name)
    requires WellFormed(d0) && Var(d0, POSTPONE) == 0 && Created(d0, d1, n, 0)
    ensures Defining(d0, SetVar(d1, COMPILING, 1), n, Var(d1, HERE), [])
  {
    hide Create, Chain, Find, HeaderAt, Var, SetVar;
    var e := SetVar(d1, COMPILING, 1);
    var here := Var(d0, HERE);
    CreateEffect(d0, n, 0);
    CreateChain(d0, d1, n, 0);
    SetVarReads(d1, COMPILING, 1);
    SetVarFrame(d1, COMPILING, 1);
    VarFrame(d0, d1, POSTPONE);
    OneByteCell(d1, here);
    HeaderBytesLong(n, Var(d0, LATEST));
    GetCellFrame(d1, e, here, DICT_SIZE);
    forall t: name
      ensures WellFormed(e) && Lookup(e, t) ==
              if t == n then Some(Hit(here, Var(d1, HERE))) else Lookup(d0, t)
    {
      CreateFinds(d0, n, 0, t);
      GrowKeepsFinds(d1, e, t);
    }
    GrowKeepsFinds(d1, e, n);
    assert e[Var(d1, HERE)..Var(d1, HERE)] == Bytes([]);
  }

  lemma SetVarFrame(d: dict, u: UserVar, w: word)
    ensures forall k :: FIRST_FREE <= k < DICT_SIZE ==> SetVar(d, u, w)[k] == d[k]
  {
  }

  lemma HeaderBytesLong(n: name, link: word)
    ensures |HeaderBytes(n, 0, link)| >= 1
  {
    hide Encode;
  }

  /** The word after `:` becomes the name under definition. */
  lemma NameOpens(m: machine, c: nat, n: name, fuel: nat)
    requires Idle(m) && PrimCode(m.dict, c, COL) && fuel >= 2 && c < DICT_SIZE
    requires Var(m.dict, HERE) + |HeaderBytes(n, 0, Var(m.dict, LATEST))| < DICT_SIZE
    ensures Create(m.dict, n, 0).Done?
    ensures var e := SetVar(Create(m.dict, n, 0).d, COMPILING, 1);
            HandleWord(m.(ip := c, rs := [0], input := PASS_WORD), n, fuel) ==
              Next(m.(dict := e, ip := 0, rs := [])) &&
            Defining(m.dict, e, n, Var(m.dict, HERE) + |HeaderBytes(n, 0, Var(m.dict, LATEST))|, [])
  {
    hide GetCell, Step, WellFormed, Var, SetVar, Create, HeaderBytes, Run;
    HereBound(m.dict);
    CreateEffect(m.dict, n, 0);
    var d1 := Create(m.dict, n, 0).d;
    var e := SetVar(d1, COMPILING, 1);
    CreateDefines(m.dict, d1, n);
    var m1 := m.(ip := c, rs := [0], input := INTERPRET);
    StepInput(m1, Some(n));
    var m2 := m1.(dict := e, ip := c + 1);
    RunWithInput(m1, Some(n), m2, fuel);
    GetCellFrame(m.dict, e, c + 1, Var(m.dict, HERE));
    RunExit(m2, fuel - 2);
    RunHalted(m2.(ip := 0, rs := []), fuel - 2);
  }

  /** A finished definition: the code of n is its items and `exit`, and every other
      name means what it did. */
  ghost predicate Finished(d0: dict, d: dict, n: name, code: nat, items: seq<Item>) {
    Extends(d0, d) && Var(d, COMPILING) == 0 && Var(d, POSTPONE) == 0 &&
    Var(d0, HERE) < code && GetCell(d, Var(d0, HERE)) == Got(|n|, 1) &&
    code + |Bytes(items)| + 1 == Var(d, HERE) && d[code..Var(d, HERE)] == Bytes(items) + [0] &&
    forall t: name :: Lookup(d, t) == if t == n then Some(Hit(Var(d0, HERE), code)) else Lookup(d0, t)
  }

  lemma ExitDefines(d0: dict, d: dict, n: name, code: nat, items: seq<Item>)
    requires Defining(d0, d, n, code, items)
    requires Var(d, HERE) + 1 < DICT_SIZE
    ensures AddCell(d, EXIT).Done?
    ensures Finished(d0, SetVar(AddCell(d, EXIT).d, COMPILING, 0), n, code, items)
  {
    hide Var, GetCell, Bytes, Chain, Find, AddCell, SetVar, Encode;
    HereBound(d);
    SmallCell(EXIT);
    AddCellAppends(d, EXIT);
    var r := AddCell(d, EXIT);
    var exit := Prim(EXIT);
    assert ItemBytes(exit) == [0];
    DefiningAppends(d0, d, r, n, code, items, exit);
    BytesAppend(items, exit);
    var e := SetVar(r.d, COMPILING, 0);
    SetVarReads(r.d, COMPILING, 0);
    SetVarFrame(r.d, COMPILING, 0);
    assert e[code..Var(e, HERE)] == r.d[code..Var(r.d, HERE)];
    HereBound(d0);
    GetCellFrame(r.d, e, Var(d0, HERE), DICT_SIZE);
    forall t: name
      ensures WellFormed(e) && Lookup(e, t) == Lookup(r.d, t)
    {
      GrowKeepsFinds(r.d, e, t);
    }
    GrowKeepsFinds(r.d, e, n);
  }

  /** `;` runs although the interpreter is compiling, and closes the definition. */
  lemma SemicolonCloses(d0: dict, m: machine, n: name, code: nat, items: seq<Item>, c: nat, fuel: nat)
    requires Defining(d0, m.dict, n, code, items) && m.input == INTERPRET && fuel >= 2 && n != SEMI
    requires Names(d0, SEMI, c, true, true) && PrimCode(d0, c, SEMICOL)
    requires Var(m.dict, HERE) + 1 < DICT_SIZE
    ensures AddCell(m.dict, EXIT).Done?
    ensures var e := SetVar(AddCell(m.dict, EXIT).d, COMPILING, 0);
            HandleWord(m, SEMI, fuel) == Next(m.(dict := e, ip := 0, rs := [])) &&
            Finished(d0, e, n, code, items)
  {
    hide Var, GetCell, Bytes, WellFormed, AddCell, SetVar, Step, Run, Lookup, Execute;
    HereBound(m.dict);
    HereBound(d0);
    ExitDefines(d0, m.dict, n, code, items);
    var e := SetVar(AddCell(m.dict, EXIT).d, COMPILING, 0);
    NamesFrame(d0, m.dict, SEMI, c, true, true);
    PrimCodeFrame(d0, m.dict, c, SEMICOL);
    HandleImmediate(m, SEMI, c, fuel);
    var m1 := m.(ip := c, rs := [0], input := INTERPRET);
    StepSemicol(m1);
    var m2 := m1.(dict := e, ip := c + 1);
    RunWithInput(m1, None, m2, fuel);
    PrimCodeBelow(d0, c, SEMICOL);
    GetCellFrame(d0, e, c + 1, Var(d0, HERE));
    RunExit(m2, fuel - 2);
    RunHalted(m2.(ip := 0, rs := []), fuel - 2);
    ExecuteIs(m, c, fuel);
  }

  lemma PrimCodeBelow(d: dict, c: nat, op: nat)
    requires PrimCode(d, c, op)
    ensures c + 2 <= Var(d, HERE) < DICT_SIZE && GetCell(d, c + 1) == Got(EXIT, 1)
  {
    hide GetCell, Var;
  }

  lemma ExecuteIs(m: machine, c: word, fuel: nat)
    ensures Execute(m, c, fuel) == OfRun(Run(m.(ip := c, rs := [0], input := INTERPRET), None, fuel))
  {
    hide Run;
  }

  lemma HandleImmediate(m: machine, s: name, code: word, fuel: nat)
    requires WellFormed(m.dict) && m.input == INTERPRET && Var(m.dict, POSTPONE) == 0
    requires Names(m.dict, s, code, true, true)
    ensures HandleWord(m, s, fuel) == Execute(m, code, fuel)
  {
    hide Execute, Lookup, Var, WellFormed, GetCell;
  }

  // ------------------------------------------------------------ main result

  /** An item that may stand in a body: a literal, a stack primitive, or a call of
      code above the primitive numbers that can be read. */
  ghost predicate Callable(d: dict, i: Item, lim: nat) {
    match i
    case Lit(_) => true
    case Prim(op) => StackPrim(op)
    case Call(c, body) => PRIM_COUNT < c && BodyAt(d, c, body, lim)
  }

  lemma ItemFromBytes(d: dict, a: nat, i: Item, lim: nat)
    requires Callable(d, i, lim) && a + |ItemBytes(i)| < lim <= DICT_SIZE - 2
    requires d[a..a + |ItemBytes(i)|] == ItemBytes(i)
    ensures ItemAt(d, a, i, lim)
  {
    hide GetCell, Encode, BodyAt, StackPrim;
    match i
    case Lit(v) =>
      var b1, b2 := Encode(LIT), Encode(v);
      SmallCell(LIT);
      ThreeParts(b1 + b2 + [], b1, b2, []);
      assert b1 + b2 + [] == b1 + b2;
      var n := |b1| + |b2|;
      SliceOfSlice(d, a, a + n, 0, 1);
      SliceOfSlice(d, a, a + n, 1, n);
      GetEncoded(d, a, LIT);
      GetEncoded(d, a + 1, v);
    case Prim(op) =>
      StackPrimCode(op);
      SmallCell(op);
      GetEncoded(d, a, op);
    case Call(c, _) => GetEncoded(d, a, ToCell(c));
  }

  lemma {:induction false} ItemsFromBytes(d: dict, a: nat, items: seq<Item>, lim: nat)
    requires forall k :: 0 <= k < |items| ==> Callable(d, items[k], lim)
    requires a + |Bytes(items)| < lim <= DICT_SIZE - 2
    requires d[a..a + |Bytes(items)|] == Bytes(items)
    ensures ItemsAt(d, a, items, lim)
    decreases |items|
  {
    hide Callable, ItemBytes, ItemAt;
    if items != [] {
      var b, n := |ItemBytes(items[0])|, |Bytes(items)|;
      SliceOfSlice(d, a, a + n, 0, b);
      SliceOfSlice(d, a, a + n, b, n);
      ItemFromBytes(d, a, items[0], lim);
      ItemsFromBytes(d, a + b, items[1..], lim);
    }
  }

  lemma ResolvesCallable(d0: dict, d: dict, s: name, i: Item)
    requires Extends(d0, d) && Resolves(d0, s, i)
    ensures Callable(d, i, Var(d, HERE))
  {
    hide Var, GetCell, Lookup, WellFormed, Names, ParseNumber, StackPrim, PrimCode;
    HereBound(d0);
    if i.Call? {
      BodyAtFrame(d0, d, i.code, i.body, Var(d0, HERE), Var(d, HERE));
    }
  }

  /** A finished definition resolves to a call of what its body stands for. */
  lemma FinishedResolves(d0: dict, d: dict, n: name, code: nat, words: seq<name>, items: seq<Item>)
    requires Finished(d0, d, n, code, items) && |words| == |items|
    requires forall k :: 0 <= k < |words| ==> Resolves(d0, words[k], items[k])
    requires PRIM_COUNT <= Var(d0, HERE) && Var(d, HERE) <= DICT_SIZE - 2
    ensures code < DICT_SIZE && Resolves(d, n, Call(code, items))
  {
    hide Var, GetCell, Resolves, Callable, Bytes, ItemsAt, WellFormed, Lookup;
    var here := Var(d, HERE);
    forall k | 0 <= k < |items|
      ensures Callable(d, items[k], here)
    {
      ResolvesCallable(d0, d, words[k], items[k]);
    }
    var bs := Bytes(items);
    SliceOfSlice(d, code, here, 0, |bs|);
    SliceOfSlice(d, code, here, |bs|, |bs| + 1);
    assert d[code..here][0..|bs|] == bs && d[code..here][|bs|..|bs| + 1] == [0];
    SmallCell(EXIT);
    ItemsFromBytes(d, code, items, here);
    GetEncoded(d, code + |bs|, EXIT);
    NewNameResolves(d0, d, n, code, items);
  }

  lemma NewNameResolves(d0: dict, d: dict, n: name, code: nat, items: seq<Item>)
    requires Finished(d0, d, n, code, items) && code < DICT_SIZE && PRIM_COUNT < code
    requires BodyAt(d, code, items, Var(d, HERE))
    ensures Resolves(d, n, Call(code, items))
  {
    hide Var, GetCell, Bytes, ItemsAt, BodyAt, WellFormed, Lookup;
  }

  /** Two ways of evaluating agree: the same data stack, or the same abort. */
  ghost predicate Agree(v: WordResult, w: WordResult) {
    (v.Next? && w.Next? && v.m.ds == w.m.ds) || (v.Failed? && w.Failed? && v.code == w.code)
  }

  /** The hypotheses of the main result: `:` and `;` are what they were made, every
      word of the body is a literal, a stack primitive or an already defined word
      built from such, n is not among them, and there is room for the definition
      in the dictionary and for its calls on the return stack. */
  ghost predicate Definable(m: machine, n: name, words: seq<name>, items: seq<Item>, colon: nat, semi: nat) {
    Idle(m) && CompilerWords(m.dict, colon, semi) &&
    n !in words && n != SEMI && |words| == |items| &&
    (forall k :: 0 <= k < |words| ==> Resolves(m.dict, words[k], items[k])) &&
    PRIM_COUNT <= Var(m.dict, HERE) &&
    Var(m.dict, HERE) + |HeaderBytes(n, 0, Var(m.dict, LATEST))| + |Bytes(items)| + 1 <= DICT_SIZE - 2 &&
    Depth(items) + 1 <= RSTACK_SIZE
  }

  lemma {:induction false} HandleAppend(m: machine, m1: machine, words: seq<name>, more: seq<name>, fuel: nat)
    requires WellFormed(m.dict) && WellFormed(m1.dict)
    requires HandleWords(m, words, fuel) == Next(m1)
    ensures HandleWords(m, words + more, fuel) == HandleWords(m1, more, fuel)
    decreases |words|
  {
    hide HandleWord, WellFormed;
    if words == [] {
      assert words + more == more;
    } else {
      assert (words + more)[1..] == words[1..] + more;
      HandleAppend(HandleWord(m, words[0], fuel).m, m1, words[1..], more, fuel);
    }
  }

  lemma HandleSingle(m: machine, m1: machine, s: name, fuel: nat)
    requires WellFormed(m.dict) && WellFormed(m1.dict) && HandleWord(m, s, fuel) == Next(m1)
    requires m1.input != PASS_CHAR
    ensures HandleWords(m, [s], fuel) == Next(m1)
  {
    hide HandleWord, WellFormed;
    assert [s][1..] == [];
  }

  /** Evaluating `: n words ;` defines n and touches nothing else. */
  lemma DefineWord(m: machine, n: name, words: seq<name>, items: seq<Item>, colon: nat, semi: nat, fuel: nat)
    returns (e: dict)
    requires Definable(m, n, words, items, colon, semi) && fuel >= 2
    ensures HandleWords(m, [COLON, n] + words + [SEMI], fuel) == Next(m.(dict := e, ip := 0, rs := []))
    ensures Finished(m.dict, e, n, Var(m.dict, HERE) + |HeaderBytes(n, 0, Var(m.dict, LATEST))|, items)
  {
    hide Var, GetCell, HandleWord, Resolves, Bytes, HeaderBytes, WellFormed, Lookup, Create, AddCell, SetVar;
    var d0 := m.dict;
    var code := Var(d0, HERE) + |HeaderBytes(n, 0, Var(d0, LATEST))|;
    ColonWaits(m, colon, fuel);
    var m1 := m.(ip := colon, rs := [0], input := PASS_WORD);
    NameOpens(m, colon, n, fuel);
    var m2 := HandleWord(m1, n, fuel).m;
    BytesEmpty();
    var d3 := CompileWords(d0, m2, n, code, [], words, items, fuel);
    assert [] + items == items;
    var m3 := m2.(dict := d3);
    SemicolonCloses(d0, m3, n, code, items, semi, fuel);
    var m4 := HandleWord(m3, SEMI, fuel).m;
    e := m4.dict;
    HandleSingle(m, m1, COLON, fuel);
    HandleSingle(m1, m2, n, fuel);
    HandleSingle(m3, m4, SEMI, fuel);
    HandleAppend(m, m1, [COLON], [n], fuel);
    assert [COLON] + [n] == [COLON, n];
    HandleAppend(m, m2, [COLON, n], words, fuel);
    HandleAppend(m2, m3, words, [], fuel);
    assert words + [] == words;
    HandleAppend(m, m3, [COLON, n] + words, [SEMI], fuel);
  }

  lemma BytesEmpty()
    ensures Bytes([]) == []
  {
  }

  /** Compilation preserves meaning: after `: n words ;`, which leaves the stack
      alone, `n` gives the data stack or the abort that interpreting the words one
      by one would have given, and that is what the reference meaning says. n can
      itself be used in later definitions, and other names keep their meaning. */
  lemma CompilationPreservesMeaning(m: machine, n: name, words: seq<name>, items: seq<Item>,
                                    colon: nat, semi: nat, fuel: nat)
    requires Definable(m, n, words, items, colon, semi) && fuel >= Steps(items) + 2
    ensures var w := HandleWords(m, [COLON, n] + words + [SEMI], fuel);
            w.Next? && Idle(w.m) && w.m.ds == m.ds &&
            Does(w.m, HandleWord(w.m, n, fuel), Meaning(items, m.ds)) &&
            Does(m, HandleWords(m, words, fuel), Meaning(items, m.ds)) &&
            Agree(HandleWord(w.m, n, fuel), HandleWords(m, words, fuel))
    ensures var d := HandleWords(m, [COLON, n] + words + [SEMI], fuel).m.dict;
            (exists code: word :: Resolves(d, n, Call(code, items))) &&
            (n != COLON ==> CompilerWords(d, colon, semi)) &&
            forall s: name, i: Item :: s != n && Resolves(m.dict, s, i) ==> Resolves(d, s, i)
  {
    hide Var, GetCell, Resolves, HandleWord, Bytes, HeaderBytes, WellFormed, Lookup, Meaning, Steps, Depth,
      Names, PrimCode, HandleWords;
    var d0 := m.dict;
    var code := Var(d0, HERE) + |HeaderBytes(n, 0, Var(d0, LATEST))|;
    var e := DefineWord(m, n, words, items, colon, semi, fuel);
    FinishedResolves(d0, e, n, code, words, items);
    InterpretWords(m, words, items, fuel);
    InterpretCall(m.(dict := e, ip := 0, rs := []), n, code, items, fuel);
    forall s: name, i: Item | s != n && Resolves(d0, s, i)
      ensures Resolves(e, s, i)
    {
      ResolvesFrame(d0, e, s, i);
    }
    if n != COLON {
      NamesFrame(d0, e, COLON, colon, true, false);
      NamesFrame(d0, e, SEMI, semi, true, true);
      PrimCodeFrame(d0, e, colon, COL);
      PrimCodeFrame(d0, e, semi, SEMICOL);
    }
  }

  // -------------------------------------------------------- from characters

  /** The words of a text up to its terminator, with white space between them, each cut
      off after 31 characters; buf is the beginning of the first. */
  function Split(buf: seq<byte>, text: seq<byte>): seq<name>
    requires |buf| <= 31
    decreases |text|
  {
    var words := if buf == [] then [] else [buf];
    if text == [] || text[0] == 0 then words
    else if IsSpace(text[0]) then words + Split([], text[1..])
    else Split(if |buf| < 31 then buf + [text[0]] else buf, text[1..])
  }

  /** Evaluating text is handling its words, with an abort leading to recovery. */
  lemma {:induction false} EvalText(m: machine, buf: seq<byte>, text: seq<byte>, fuel: nat)
    requires WellFormed(m.dict) && m.input != PASS_CHAR && |buf| <= 31
    ensures var w, t := HandleWords(m, Split(buf, text), fuel), Eval(Session(m, buf), text, fuel);
            (w.Next? ==> t == Evaluated(Session(w.m, []))) &&
            (w.Failed? ==> t == Recovered(Recover(w.dict), w.code))
    decreases |text|
  {
    hide HandleWord, Handle, WellFormed, IsSpace, SetVar;
    var c := if text == [] then 0 else text[0];
    if c != 0 && !IsSpace(c) {
      EvalText(m, if |buf| < 31 then buf + [c] else buf, text[1..], fuel);
    } else if buf == [] {
      if c != 0 {
        assert Split(buf, text) == Split([], text[1..]);
        EvalText(m, [], text[1..], fuel);
      }
    } else {
      HandleIsHandleWord(m, buf, fuel);
      var w := HandleWord(m, buf, fuel);
      var rest := if c == 0 then [] else Split([], text[1..]);
      assert Split(buf, text) == [buf] + rest;
      assert ([buf] + rest)[1..] == rest;
      if c != 0 && w.Next? && WellFormed(w.m.dict) && w.m.input != PASS_CHAR {
        EvalText(w.m, [], text[1..], fuel);
      }
    }
  }

  /** No white space and no terminator inside. */
  predicate Plain(s: seq<byte>) {
    forall i :: 0 <= i < |s| ==> s[i] != 0 && !IsSpace(s[i])
  }

  predicate Blank(s: seq<byte>) {
    forall i :: 0 <= i < |s| ==> s[i] != 0 && IsSpace(s[i])
  }

  /** Words written out, each with white space behind it; the last needs none, because the
      terminator ends it. */
  function Written(words: seq<name>, gaps: seq<seq<byte>>): seq<byte>
    requires |words| == |gaps|
    decreases |words|
  {
    if words == [] then [] else words[0] + gaps[0] + Written(words[1..], gaps[1..])
  }

  /** White space before and after the words makes no difference. */
  lemma {:induction false} SplitBlank(gap: seq<byte>, text: seq<byte>)
    requires Blank(gap)
    ensures Split([], gap + text) == Split([], text)
    decreases |gap|
  {
    hide IsSpace;
    if gap == [] {
      assert gap + text == text;
    } else {
      assert (gap + text)[1..] == gap[1..] + text;
      SplitBlank(gap[1..], text);
    }
  }

  lemma {:induction false} SplitWord(pre: seq<byte>, suf: seq<byte>, text: seq<byte>)
    requires |pre + suf| <= 31 && Plain(suf)
    ensures Split(pre, suf + text) == Split(pre + suf, text)
    decreases |suf|
  {
    hide IsSpace;
    if suf == [] {
      assert suf + text == text && pre + suf == pre;
    } else {
      assert (suf + text)[0] == suf[0];
      assert (suf + text)[1..] == suf[1..] + text;
      assert pre + [suf[0]] + suf[1..] == pre + suf;
      SplitWord(pre + [suf[0]], suf[1..], text);
    }
  }

  /** Any such text splits into its words. */
  lemma {:induction false} SplitWritten(lead: seq<byte>, words: seq<name>, gaps: seq<seq<byte>>)
    requires |words| == |gaps| && Blank(lead)
    requires forall k :: 0 <= k < |words| ==> Plain(words[k]) && Blank(gaps[k])
    requires forall k :: 0 <= k < |words| - 1 ==> gaps[k] != []
    ensures Split([], lead + Written(words, gaps)) == words
    decreases |words|
  {
    hide IsSpace, Plain, Blank;
    SplitBlank(lead, Written(words, gaps));
    if words != [] {
      var word, gap, rest := words[0], gaps[0], Written(words[1..], gaps[1..]);
      assert Written(words, gaps) == word + (gap + rest);
      SplitWord([], word, gap + rest);
      assert [] + word == word;
      SplitWritten(gap, words[1..], gaps[1..]);
      SplitAfterWord(word, gap, rest, words[1..]);
      assert [word] + words[1..] == words;
    }
  }

  /** A complete word, and then what the rest splits into. */
  lemma SplitAfterWord(word: name, gap: seq<byte>, rest: seq<byte>, words: seq<name>)
    requires Blank(gap) && Split([], gap + rest) == words && (gap == [] ==> rest == [])
    ensures Split(word, gap + rest) == [word] + words
  {
    hide IsSpace;
    if gap == [] {
      assert gap + rest == [];
    } else {
      assert (gap + rest)[0] == gap[0];
    }
  }

  /** The main result on text: let three texts split into `: n words ;`, into `n` and into
      the words. zf_eval of the first returns OK and changes no stack, and from there
      zf_eval of the second returns what zf_eval of the third returns from the start: OK
      with the same data stack, or the same abort code with both stacks emptied. */
  lemma EvaluationAgrees(m: machine, n: name, words: seq<name>, items: seq<Item>, colon: nat, semi: nat,
                         definition: seq<byte>, use: seq<byte>, body: seq<byte>, fuel: nat)
    requires Definable(m, n, words, items, colon, semi) && fuel >= Steps(items) + 2
    requires Split([], definition) == [COLON, n] + words + [SEMI]
    requires Split([], use) == [n] && Split([], body) == words
    ensures var t := Eval(Session(m, []), definition, fuel);
            t.Evaluated? && t.s.buf == [] && t.s.m.ds == m.ds &&
            var a, b := Eval(t.s, use, fuel), Eval(Session(m, []), body, fuel);
            (a.Evaluated? && b.Evaluated? && a.s.m.ds == b.s.m.ds) ||
            (a.Recovered? && b.Recovered? && a.code == b.code && a.m.ds == b.m.ds == [] && a.m.rs == b.m.rs == [])
  {
    hide HandleWord, Var, Resolves, HandleWords, Eval, Split, Meaning, Steps, Bytes, HeaderBytes, Depth, SetVar,
      CompilerWords;
    CompilationPreservesMeaning(m, n, words, items, colon, semi, fuel);
    EvalText(m, [], definition, fuel);
    var m1 := HandleWords(m, [COLON, n] + words + [SEMI], fuel).m;
    var w := HandleWord(m1, n, fuel);
    if w.Next? {
      HandleSingle(m1, w.m, n, fuel);
    } else {
      FailSingle(m1, n, fuel);
    }
    EvalText(m1, [], use, fuel);
    EvalText(m, [], body, fuel);
  }

  lemma FailSingle(m: machine, s: name, fuel: nat)
    requires WellFormed(m.dict) && HandleWord(m, s, fuel).Failed?
    ensures HandleWords(m, [s], fuel) == HandleWord(m, s, fuel)
  {
    hide HandleWord, WellFormed;
  }
}
