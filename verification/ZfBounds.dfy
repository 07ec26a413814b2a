/** zForth's name search reads past no array end and stops unless it runs in a circle
    (boot/zforth/zforth.c, boot/zforth-riscv/libc.c): the last dictionary byte, which no
    store reaches, ends every comparison, as the terminator ends the word looked for. */
module ZfBounds {
  import opened Words
  import opened Numbers
  import opened ZfCells
  import opened ZfDictionary
  import opened ZfMachine
  import opened ZfEval
  import opened ZfBootstrap

  function LastByte(d: dict): byte {
    d[DICT_SIZE - 1]
  }

  /** The last byte of the array is as static storage starts out. */
  predicate Terminated(d: dict) {
    LastByte(d) == 0
  }

  /** The characters of a C string before its terminator. */
  predicate CString(s: seq<byte>) {
    0 !in s
  }

  // ---------------------------------------------------------- comparisons

  /** A comparison that starts inside the array reads nothing beyond it. */
  lemma {:induction false} ComparesInside(d: dict, p: nat, s: seq<byte>, i: nat)
    requires Terminated(d) && CString(s) && i <= |s| && p + i < DICT_SIZE
    ensures !Compare(d, p, s, i).PastEnd?
    ensures Compare(d, p, s, i).Differs? ==> p + Compare(d, p, s, i).at < DICT_SIZE
    ensures Compare(d, p, s, i).Same? ==> p + |s| < DICT_SIZE
    decreases |s| - i
  {
    if i < |s| && d[p + i] == s[i] {
      assert s[i] in s;
      ComparesInside(d, p, s, i + 1);
    }
  }

  /** So a name that would reach the end of the array or go beyond it matches nothing, and
      the search goes on to the next link. */
  lemma LateNameDiffers(d: dict, p: nat, s: seq<byte>)
    requires Terminated(d) && CString(s) && p < DICT_SIZE <= p + |s|
    ensures Compare(d, p, s, 0).Differs?
  {
    ComparesInside(d, p, s, 0);
  }

  /** The search never strays, whatever the other bytes, from wherever it starts. */
  lemma {:induction false} SearchStaysInside(d: dict, s: name, w: nat, turns: nat)
    requires Terminated(d) && CString(s)
    ensures !FindWord(d, s, w, turns).Strayed?
    decreases turns
  {
    hide Compare, GetCell;
    if w != 0 && turns != 0 && GetCell(d, w).Got? {
      var n := GetCell(d, w).size;
      if GetCell(d, w + n).Got? {
        var link, k := GetCell(d, w + n).value, GetCell(d, w + n).size;
        ComparesInside(d, w + n + k, s, 0);
        SearchStaysInside(d, s, ToWord(link), turns - 1);
      }
    }
  }

  // --------------------------------------------------------------- circles

  /** More turns change nothing once a search has ended. */
  lemma {:induction false} SearchMonotone(d: dict, s: name, w: nat, turns: nat, more: nat)
    requires turns <= more && !FindWord(d, s, w, turns).Lost?
    ensures FindWord(d, s, w, more) == FindWord(d, s, w, turns)
    decreases turns
  {
    hide Compare, GetCell;
    if GoesOn(d, s, w) && turns != 0 {
      SearchMonotone(d, s, LinkAt(d, w), turns - 1, more - 1);
    }
  }

  /** The link of the header cells at w, 0 when they cannot be read. */
  function LinkAt(d: dict, w: nat): word {
    match GetCell(d, w)
    case Outside => 0
    case Got(_, n) =>
      match GetCell(d, w + n)
      case Outside => 0
      case Got(link, _) => ToWord(link)
  }

  /** The search does not end at w. */
  ghost predicate GoesOn(d: dict, s: name, w: nat) {
    w != 0 && FindWord(d, s, w, 1) == FindWord(d, s, LinkAt(d, w), 0)
  }

  /** The search from w ends in its n-th turn. */
  ghost predicate EndsIn(d: dict, s: name, w: nat, n: nat) {
    !FindWord(d, s, w, n).Lost? && (n > 0 ==> FindWord(d, s, w, n - 1).Lost?)
  }

  lemma OneTurnLess(d: dict, s: name, w: nat, n: nat)
    requires EndsIn(d, s, w, n) && n >= 2
    ensures EndsIn(d, s, LinkAt(d, w), n - 1) && w < DICT_SIZE - 2
  {
    hide Compare;
  }

  /** Where a search that ends in its n-th turn has been before that turn. */
  ghost function Trail(d: dict, s: name, w: nat, n: nat): (t: seq<nat>)
    requires EndsIn(d, s, w, n)
    ensures |t| == if n == 0 then 0 else n - 1
    ensures forall k :: 0 <= k < |t| ==> t[k] < DICT_SIZE - 2 && EndsIn(d, s, t[k], n - k)
    decreases n
  {
    if n < 2 then []
    else
      OneTurnLess(d, s, w, n);
      [w] + Trail(d, s, LinkAt(d, w), n - 1)
  }

  lemma {:induction false} Pigeonhole(t: seq<nat>, bound: nat)
    requires forall k :: 0 <= k < |t| ==> t[k] < bound
    requires forall j, k :: 0 <= j < k < |t| ==> t[j] != t[k]
    ensures |t| <= bound
    decreases bound
  {
    if t != [] {
      assert t[0] < bound;
      if k :| 0 <= k < |t| && t[k] == bound - 1 {
        Pigeonhole(t[..k] + t[k + 1..], bound - 1);
      } else {
        Pigeonhole(t, bound - 1);
      }
    }
  }

  /** A search that ends at all has passed no place twice. */
  lemma EndsSoon(d: dict, s: name, w: nat, n: nat)
    requires EndsIn(d, s, w, n)
    ensures n < DICT_SIZE
  {
    hide FindWord;
    if n > 0 {
      var t := Trail(d, s, w, n);
      forall j, k | 0 <= j < k < |t|
        ensures t[j] != t[k]
      {
        if t[j] == t[k] {
          SearchMonotone(d, s, t[k], n - k, n - j - 1);
        }
      }
      Pigeonhole(t, DICT_SIZE - 2);
    }
  }

  lemma {:induction false} FirstEnd(d: dict, s: name, w: nat, turns: nat) returns (n: nat)
    requires !FindWord(d, s, w, turns).Lost?
    ensures n <= turns && EndsIn(d, s, w, n)
  {
    hide FindWord;
    n := turns;
    while n > 0 && !FindWord(d, s, w, n - 1).Lost?
      invariant n <= turns && !FindWord(d, s, w, n).Lost?
    {
      n := n - 1;
    }
  }

  /** A search that has taken as many turns as there are bytes never ends. */
  lemma LostForever(d: dict, s: name, w: nat, turns: nat, more: nat)
    requires turns >= DICT_SIZE && FindWord(d, s, w, turns).Lost?
    ensures FindWord(d, s, w, more).Lost?
  {
    hide FindWord;
    if !FindWord(d, s, w, more).Lost? {
      var n := FirstEnd(d, s, w, more);
      EndsSoon(d, s, w, n);
      SearchMonotone(d, s, w, n, turns);
    }
  }

  /** One `!!` can bring that about: with a one-letter word as the only one, storing its
      address as its own link makes the search for any name of another length endless. */
  lemma PokeLoops(m: machine, s: name, turns: nat)
    requires Var(m.dict, LATEST) == FIRST_FREE && m.dict[FIRST_FREE] == 1
    requires m.ds == [FIRST_FREE, FIRST_FREE + 1, 0] && |s| != 1
    ensures var o := DoPrim(m, POKE, None);
            o.Running? && FindWord(o.m.dict, s, Var(o.m.dict, LATEST), turns).Lost?
  {
    hide FindWord, Var;
    var d := Write(m.dict, FIRST_FREE + 1, [FIRST_FREE]);
    VarFrame(m.dict, d, LATEST);
    LinksToItself(d, FIRST_FREE, s, turns);
  }

  lemma {:induction false} LinksToItself(d: dict, w: nat, s: name, turns: nat)
    requires 0 < w && w + 1 < DICT_SIZE - 2 && d[w] == 1 && d[w + 1] == w && w < 128 && |s| != 1
    ensures FindWord(d, s, w, turns).Lost?
    decreases turns
  {
    if turns > 0 {
      LinksToItself(d, w, s, turns - 1);
    }
  }

  // ------------------------------------------------- what keeps the last byte

  lemma PutBytesKeepsLast(d: dict, a: nat, bs: seq<byte>)
    requires |bs| < DICT_SIZE
    ensures LastByte(PutBytes(d, a, bs).d) == LastByte(d)
  {
  }

  lemma PutCellKeepsLast(d: dict, a: nat, v: cell)
    ensures LastByte(PutCell(d, a, v).d) == LastByte(d)
  {
    hide Encode, Write;
    var bs := Encode(v);
    if |bs| < 5 {
      PutBytesKeepsLast(d, a, bs);
    } else {
      PutBytesKeepsLast(d, a, bs[..1]);
      PutBytesKeepsLast(PutBytes(d, a, bs[..1]).d, a + 1, bs[1..]);
    }
  }

  lemma SetVarKeepsLast(d: dict, u: UserVar, w: word)
    ensures LastByte(SetVar(d, u, w)) == LastByte(d)
  {
  }

  lemma AddCellKeepsLast(d: dict, v: cell)
    ensures LastByte(AddCell(d, v).d) == LastByte(d)
  {
    hide PutCell, SetVar, Var, LastByte;
    PutCellKeepsLast(d, Var(d, HERE), v);
    match PutCell(d, Var(d, HERE), v)
    case Overrun(_) =>
    case Stored(e, n) => SetVarKeepsLast(e, HERE, ToWord(Var(e, HERE) + n));
  }

  lemma AddBytesKeepsLast(d: dict, s: name)
    ensures LastByte(AddBytes(d, s).d) == LastByte(d)
  {
    hide PutBytes, SetVar, Var, LastByte;
    PutBytesKeepsLast(d, Var(d, HERE), s);
    match PutBytes(d, Var(d, HERE), s)
    case Overrun(_) =>
    case Stored(e, n) => SetVarKeepsLast(e, HERE, ToWord(Var(e, HERE) + n));
  }

  lemma CreateKeepsLast(d: dict, s: name, flags: nat)
    requires flags == 0 || flags == FLAG_PRIM
    ensures LastByte(Create(d, s, flags).d) == LastByte(d)
  {
    hide AddCell, AddBytes, SetVar, Var, LastByte;
    AddCellKeepsLast(d, |s| + flags);
    var d1 := AddCell(d, |s| + flags).d;
    AddCellKeepsLast(d1, ToCell(Var(d1, LATEST)));
    var d2 := AddCell(d1, ToCell(Var(d1, LATEST))).d;
    AddBytesKeepsLast(d2, s);
    SetVarKeepsLast(AddBytes(d2, s).d, LATEST, Var(d, HERE));
  }

  lemma MakeImmediateKeepsLast(d: dict)
    ensures LastByte(MakeImmediate(d).d) == LastByte(d)
  {
    hide PutCell, GetCell, Var, SetImmediate, LastByte;
    match GetCell(d, Var(d, LATEST))
    case Outside =>
    case Got(lenflags, _) => PutCellKeepsLast(d, Var(d, LATEST), SetImmediate(lenflags));
  }

  // ------------------------------------------------------ primitives and runs

  /** The dictionary that a primitive or a step leaves. */
  function Leaving(o: Outcome): dict {
    match o
    case Running(m) => m.dict
    case Aborted(d, _) => d
    case Foreign(m, _) => m.dict
  }

  /** And a run. */
  function RunLeaving(r: RunResult): dict {
    match r
    case Halted(m) => m.dict
    case Suspended(m) => m.dict
    case RunAborted(d, _) => d
    case RunForeign(m, _) => m.dict
    case OutOfFuel(m) => m.dict
  }

  /** What a word leaves has this last byte, and handling it has not read past the end. */
  predicate WordKeeps(last: byte, w: WordResult) {
    match w
    case Next(m) => LastByte(m.dict) == last
    case Failed(d, _) => LastByte(d) == last
    case Escaped(m, _) => LastByte(m.dict) == last
    case Unfinished(m) => LastByte(m.dict) == last
    case Astray => false
  }

  lemma PokeKeepsLast(m: machine)
    ensures LastByte(Leaving(PokePrim(m))) == LastByte(m.dict)
  {
    hide PutCell, ToWord;
    if |m.ds| >= 3 {
      PutCellKeepsLast(m.dict, ToWord(m.ds[|m.ds| - 2]), m.ds[|m.ds| - 3]);
    }
  }

  /** Every primitive keeps the last byte, `!!` to any address included, completed or
      aborted. */
  lemma PrimKeepsLast(m: machine, op: nat, arg: input)
    requires op <= PRIM_COUNT
    ensures LastByte(Leaving(DoPrim(m, op, arg))) == LastByte(m.dict)
  {
    hide LastByte, RunStackPrim, GetCell, AddCell, Create, MakeImmediate, SetVar, PokePrim;
    if op == COL && arg.Some? {
      CreateKeepsLast(m.dict, arg.value, 0);
      SetVarKeepsLast(Create(m.dict, arg.value, 0).d, COMPILING, 1);
    } else if op == SEMICOL {
      AddCellKeepsLast(m.dict, EXIT);
      SetVarKeepsLast(AddCell(m.dict, EXIT).d, COMPILING, 0);
    } else if op == COMMA && Has(m, 2) {
      AddCellKeepsLast(m.dict, m.ds[|m.ds| - 2]);
    } else if op == IMMEDIATE {
      MakeImmediateKeepsLast(m.dict);
    } else if op == POKE {
      PokeKeepsLast(m);
    }
  }

  lemma StepKeepsLast(m: machine, arg: input)
    ensures LastByte(Leaving(Step(m, arg))) == LastByte(m.dict)
  {
    hide LastByte, GetCell, DoPrim;
    match GetCell(m.dict, m.ip)
    case Outside =>
    case Got(d, n) =>
      if ToWord(d) <= PRIM_COUNT {
        PrimKeepsLast(Skip(m, n), ToWord(d), arg);
      }
  }

  /** So does every run, from any ip and any stacks. */
  lemma {:induction false} RunKeepsLast(m: machine, arg: input, fuel: nat)
    requires m.input == INTERPRET
    ensures LastByte(RunLeaving(Run(m, arg, fuel))) == LastByte(m.dict)
    decreases fuel
  {
    hide LastByte, Step;
    if m.ip != 0 && fuel != 0 {
      StepKeepsLast(m, arg);
      var o := Step(m, arg);
      if o.Running? && o.m.input == INTERPRET {
        RunKeepsLast(o.m, None, fuel - 1);
      }
    }
  }

  // -------------------------------------------------------- words and text

  lemma HandleFoundKeepsLast(m: machine, hit: Hit, fuel: nat)
    ensures WordKeeps(LastByte(m.dict), HandleFound(m, hit, fuel))
  {
    hide LastByte, GetCell, Var, AddCell, SetVar, Run;
    var d := m.dict;
    RunKeepsLast(m.(ip := ToWord(hit.code), rs := [0], input := INTERPRET), None, fuel);
    AddCellKeepsLast(d, ToCell(hit.code));
    SetVarKeepsLast(AddCell(d, ToCell(hit.code)).d, POSTPONE, 0);
    match GetCell(d, hit.code)
    case Outside =>
    case Got(op, _) =>
      AddCellKeepsLast(d, op);
      SetVarKeepsLast(AddCell(d, op).d, POSTPONE, 0);
  }

  lemma HandleNumberKeepsLast(m: machine, s: name)
    ensures WordKeeps(LastByte(m.dict), HandleNumber(m, s))
  {
    hide LastByte, ParseNumber, Var, AddCell;
    AddCellKeepsLast(m.dict, LIT);
    match ParseNumber(s)
    case None =>
    case Some(v) => AddCellKeepsLast(AddCell(m.dict, LIT).d, v);
  }

  /** So does every word handled, in any state. */
  lemma HandleTerminated(m: machine, s: name, fuel: nat)
    requires Terminated(m.dict) && CString(s)
    ensures WordKeeps(0, Handle(m, s, fuel))
  {
    hide LastByte, Run, Var, FindWord, HandleFound, HandleNumber;
    RunKeepsLast(m.(input := INTERPRET), Some(s), fuel);
    HandleNumberKeepsLast(m, s);
    SearchStaysInside(m.dict, s, Var(m.dict, LATEST), DICT_SIZE);
    match FindWord(m.dict, s, Var(m.dict, LATEST), DICT_SIZE)
    case Found(hit) => HandleFoundKeepsLast(m, hit, fuel);
    case _ =>
  }

  /** What holds between characters: the last byte is 0 and so is none of the characters
      collected. */
  predicate Sealed(s: Session) {
    Terminated(s.m.dict) && CString(s.buf)
  }

  predicate CharSealed(q: CharResult) {
    match q
    case More(t) => Sealed(t)
    case Broke(d, _) => Terminated(d)
    case Left(m) => Terminated(m.dict)
    case Astray => false
  }

  lemma CharKeepsSealed(s: Session, c: byte, fuel: nat)
    requires Sealed(s) && |s.buf| <= 31
    ensures CharSealed(HandleChar(s, c, fuel))
  {
    hide LastByte, Run, Handle, IsSpace;
    if s.m.input == PASS_CHAR {
      RunKeepsLast(s.m.(input := INTERPRET), Some([c]), fuel);
    } else if s.buf != [] {
      HandleTerminated(s.m, s.buf, fuel);
    }
  }

  predicate EvalSealed(e: Evaluation) {
    match e
    case Evaluated(s) => Sealed(s)
    case Recovered(m, _) => Terminated(m.dict)
    case Gone(m) => Terminated(m.dict)
    case Astray => false
  }

  /** And every evaluation of any text, recovery from aborts included; no search in it
      leaves the array. */
  lemma {:induction false} EvalKeepsSealed(s: Session, text: seq<byte>, fuel: nat)
    requires Sealed(s) && |s.buf| <= 31
    ensures EvalSealed(Eval(s, text, fuel))
    decreases |text|
  {
    hide LastByte, HandleChar, SetVar;
    var c := if text == [] then 0 else text[0];
    CharKeepsSealed(s, c, fuel);
    match HandleChar(s, c, fuel)
    case Left(_) =>
    case Broke(d, _) => SetVarKeepsLast(d, COMPILING, 0);
    case More(t) =>
      if c != 0 && |t.buf| <= 31 {
        EvalKeepsSealed(t, text[1..], fuel);
      }
  }

  // ------------------------------------------------------------- bootstrap

  lemma AddWordKeepsLast(d: dict, k: nat)
    requires k < WORD_COUNT
    ensures LastByte(AddWord(d, k).d) == LastByte(d)
  {
    hide LastByte, Create, AddCell, MakeImmediate, WordName, IsImmediate;
    var e := Create(d, WordName(k), if k < PRIM_COUNT then FLAG_PRIM else 0).d;
    CreateKeepsLast(d, WordName(k), if k < PRIM_COUNT then FLAG_PRIM else 0);
    var f := AddCell(e, if k < PRIM_COUNT then k else LIT).d;
    AddCellKeepsLast(e, if k < PRIM_COUNT then k else LIT);
    AddCellKeepsLast(f, EXIT);
    MakeImmediateKeepsLast(AddCell(f, EXIT).d);
    if k >= PRIM_COUNT {
      AddCellKeepsLast(f, k - PRIM_COUNT);
      AddCellKeepsLast(AddCell(f, k - PRIM_COUNT).d, EXIT);
    }
  }

  lemma {:induction false} BootKeepsLast(d: dict, k: nat)
    requires k <= WORD_COUNT
    ensures LastByte(Bootstrap(d, k).d) == LastByte(d)
    decreases WORD_COUNT - k
  {
    hide LastByte, AddWord;
    if k < WORD_COUNT {
      AddWordKeepsLast(d, k);
      BootKeepsLast(AddWord(d, k).d, k + 1);
    }
  }

  /** Initialisation and bootstrap keep it too, so it holds from static storage on. */
  lemma BootedKeepsLast(d: dict, trace: word)
    ensures LastByte(Init(d, trace)) == LastByte(Bootstrap(Init(d, trace), 0).d) == LastByte(d)
  {
    hide LastByte, SetVar;
    var d1 := SetVar(d, HERE, FIRST_FREE);
    SetVarKeepsLast(d, HERE, FIRST_FREE);
    SetVarKeepsLast(d1, TRACE, trace);
    SetVarKeepsLast(SetVar(d1, TRACE, trace), LATEST, 0);
    SetVarKeepsLast(SetVar(SetVar(d1, TRACE, trace), LATEST, 0), COMPILING, 0);
    BootKeepsLast(Init(d, trace), 0);
  }
}
