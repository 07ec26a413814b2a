/** What every run of zForth keeps (boot/zforth/zforth.c): from any state the stack
    bounds, and from a sound dictionary its structure, aborts included. */
module ZfSafety {
  import opened Words
  import opened ZfCells
  import opened ZfDictionary
  import opened ZfMachine

  /** A well-formed dictionary with at least one word in it. */
  ghost predicate Sound(d: dict) {
    WellFormed(d) && Var(d, LATEST) != 0
  }

  ghost predicate OutcomeSound(o: Outcome) {
    match o
    case Running(m) => Sound(m.dict)
    case Aborted(d, _) => Sound(d)
    case Foreign(m, _) => Sound(m.dict)
  }

  lemma SetVarSound(d: dict, u: UserVar, w: word)
    requires Sound(d) && u != HERE && u != LATEST
    ensures Sound(SetVar(d, u, w))
  {
    hide Var, SetVar;
    SetVarReads(d, u, w);
    SetVarBytes(d, u, w);
    GrowKeepsFinds(d, SetVar(d, u, w), [46]);
  }

  lemma SetVarBytes(d: dict, u: UserVar, w: word)
    ensures forall k :: FIRST_FREE <= k < DICT_SIZE ==> SetVar(d, u, w)[k] == d[k]
  {
  }

  lemma AddCellSound(d: dict, v: cell)
    requires Sound(d)
    ensures Sound(AddCell(d, v).d)
  {
    hide AddCell, Find, Chain;
    ApplyFinds(d, OpCell(v), [46]);
  }

  lemma CreateSound(d: dict, s: name)
    requires Sound(d)
    ensures Sound(Create(d, s, 0).d)
  {
    hide Create, Find, Chain;
    ApplyFinds(d, OpCreate(s, 0), [46]);
  }

  lemma MakeImmediateSound(d: dict)
    requires Sound(d)
    ensures MakeImmediate(d).Done? && Sound(MakeImmediate(d).d)
  {
    hide MakeImmediate, Find, Chain;
    MakeImmediateEffect(d);
    MakeImmediateFinds(d, [46]);
  }

  // ------------------------------------------------------------- stores by the program

  /** Where the code of the newest word starts. */
  function NewestCode(d: dict): nat {
    match HeaderAt(d, Var(d, LATEST))
    case Some(h) => h.Code()
    case None => 0
  }

  /** A value for user variable u that leaves the dictionary in order: HERE at or past the
      newest word's code, LATEST at the head of a chain; the others are free. */
  ghost predicate VarFits(d: dict, u: UserVar, w: word) {
    match u
    case HERE => NewestCode(d) <= w < DICT_SIZE
    case LATEST => w != 0 && Chain(d, w, Var(d, HERE))
    case _ => true
  }

  lemma ChainHere(d: dict, lim: nat)
    requires Sound(d) && lim < DICT_SIZE
    ensures Chain(d, Var(d, LATEST), lim) <==> NewestCode(d) <= lim
  {
    hide HeaderAt, Var;
    NameAfterHeader(d, Var(d, LATEST));
  }

  /** Storing to a user variable keeps the dictionary sound if and only if the value
      fits. */
  lemma VarStoreIff(d: dict, u: UserVar, w: word)
    requires Sound(d)
    ensures Sound(SetVar(d, u, w)) <==> VarFits(d, u, w)
  {
    hide Var, SetVar, Chain, HeaderAt;
    var e := SetVar(d, u, w);
    SetVarReads(d, u, w);
    SetVarBytes(d, u, w);
    if u == HERE {
      if w < DICT_SIZE {
        ChainHere(d, w);
        SameChain(d, e, Var(d, LATEST), w);
        NewestAboveVars(d);
      }
    } else if u == LATEST {
      SameChain(d, e, w, Var(d, HERE));
    } else {
      SetVarSound(d, u, w);
    }
  }

  lemma NewestAboveVars(d: dict)
    requires Sound(d)
    ensures NewestCode(d) > FIRST_FREE
  {
    hide Var;
    NameAfterHeader(d, Var(d, LATEST));
  }

  /** Dictionaries that agree above the user variables have the same chains. */
  lemma SameChain(d: dict, e: dict, w: nat, lim: nat)
    requires lim < DICT_SIZE && forall i :: FIRST_FREE <= i < DICT_SIZE ==> e[i] == d[i]
    ensures Chain(e, w, lim) <==> Chain(d, w, lim)
  {
    hide Chain;
    if Chain(d, w, lim) {
      ChainFrame(d, e, w, lim, lim);
    }
    if Chain(e, w, lim) {
      ChainFrame(e, d, w, lim, lim);
    }
  }

  /** The bytes lo..hi are in no header cell of the chain from w on; they may be in a name. */
  ghost predicate SparesHeaders(d: dict, w: nat, lim: nat, lo: nat, hi: nat)
    requires Chain(d, w, lim)
    decreases w
  {
    w == 0 ||
    var h := HeaderAt(d, w).value;
    (hi <= w || h.nameAt <= lo) && SparesHeaders(d, h.link, w, lo, hi)
  }

  /** A change inside such bytes leaves the chain, whatever it does to names. */
  lemma {:induction false} SparedChain(d: dict, e: dict, w: nat, lim: nat, lo: nat, hi: nat)
    requires Chain(d, w, lim) && SparesHeaders(d, w, lim, lo, hi)
    requires forall i :: FIRST_FREE <= i < DICT_SIZE && !(lo <= i < hi) ==> e[i] == d[i]
    ensures Chain(e, w, lim)
    decreases w
  {
    hide HeaderAt;
    if w != 0 {
      var h := HeaderAt(d, w).value;
      NameAfterHeader(d, w);
      HeaderFrame(d, e, w, h.nameAt);
      SparedChain(d, e, h.link, w, lo, hi);
    }
  }

  /** The bytes lo..hi are in no header and no name of the chain from w on. */
  ghost predicate Spares(d: dict, w: nat, lim: nat, lo: nat, hi: nat)
    requires Chain(d, w, lim)
    decreases w
  {
    w == 0 ||
    var h := HeaderAt(d, w).value;
    (hi <= w || h.Code() <= lo) && Spares(d, h.link, w, lo, hi)
  }

  /** A change inside such bytes leaves the chain and what it finds as they were. */
  lemma {:induction false} SparedFinds(d: dict, e: dict, t: name, w: nat, lim: nat, lo: nat, hi: nat)
    requires Chain(d, w, lim) && Spares(d, w, lim, lo, hi)
    requires forall i :: FIRST_FREE <= i < DICT_SIZE && !(lo <= i < hi) ==> e[i] == d[i]
    ensures Chain(e, w, lim) && Find(e, t, w, lim) == Find(d, t, w, lim)
    decreases w
  {
    hide HeaderAt;
    if w != 0 {
      var h := HeaderAt(d, w).value;
      NameAfterHeader(d, w);
      HeaderFrame(d, e, w, h.nameAt);
      assert NameAt(e, h) == NameAt(d, h);
      SparedFinds(d, e, t, h.link, w, lo, hi);
    }
  }

  /** A store outside HERE, LATEST and every header's cells, completed or cut short, keeps
      the dictionary sound. */
  lemma SparedSound(d: dict, a: nat, v: cell)
    requires Sound(d) && 8 <= a && SparesHeaders(d, Var(d, LATEST), Var(d, HERE), a, a + |Encode(v)|)
    ensures Sound(PutCell(d, a, v).d)
  {
    hide PutCell, Encode, HeaderAt;
    PutCellIsWrite(d, a, v);
    var e := PutCell(d, a, v).d;
    VarFrame(d, e, HERE);
    VarFrame(d, e, LATEST);
    SparedChain(d, e, Var(d, LATEST), Var(d, HERE), a, a + |Encode(v)|);
  }

  /** Outside the names as well, it keeps every lookup as it was. */
  lemma SparedStore(d: dict, a: nat, v: cell, t: name)
    requires Sound(d) && 8 <= a && Spares(d, Var(d, LATEST), Var(d, HERE), a, a + |Encode(v)|)
    ensures var e := PutCell(d, a, v).d; Sound(e) && Lookup(e, t) == Lookup(d, t)
  {
    hide PutCell, Encode, HeaderAt;
    PutCellIsWrite(d, a, v);
    var e := PutCell(d, a, v).d;
    VarFrame(d, e, HERE);
    VarFrame(d, e, LATEST);
    SparedFinds(d, e, t, Var(d, LATEST), Var(d, HERE), a, a + |Encode(v)|);
  }

  /** At and above HERE there is nothing to spare. */
  lemma {:induction false} AboveIsSpared(d: dict, w: nat, lim: nat, lo: nat, hi: nat)
    requires Chain(d, w, lim) && lim <= lo
    ensures Spares(d, w, lim, lo, hi) && SparesHeaders(d, w, lim, lo, hi)
    decreases w
  {
    hide HeaderAt;
    if w != 0 {
      NameAfterHeader(d, w);
      AboveIsSpared(d, HeaderAt(d, w).value.link, w, lo, hi);
    }
  }

  /** `!!` on this stack does no harm: it aborts before storing, or stores a value that fits
      in a user variable, or stores where no header is. */
  ghost predicate PokeHarmless(m: machine)
    requires Sound(m.dict)
  {
    |m.ds| < 3 ||
    var n, d := |m.ds|, m.dict;
    var v, addr, size := m.ds[n - 3], ToWord(m.ds[n - 2]), m.ds[n - 1];
    if addr < 5 then VarFits(d, VarAt(addr), ToWord(v))
    else size != 0 || (8 <= addr && SparesHeaders(d, Var(d, LATEST), Var(d, HERE), addr, addr + |Encode(v)|))
  }

  /** The user variable that a low address names. */
  function VarAt(addr: nat): (u: UserVar)
    requires addr < 5
    ensures u.Offset() == 4 * addr
  {
    if addr == 0 then HERE else if addr == 1 then LATEST else if addr == 2 then TRACE
    else if addr == 3 then COMPILING else POSTPONE
  }

  /** For the user variables this is exact. */
  lemma VarPokeIff(m: machine)
    requires Sound(m.dict) && |m.ds| >= 3 && ToWord(m.ds[|m.ds| - 2]) < 5
    ensures OutcomeSound(PokePrim(m)) <==> PokeHarmless(m)
  {
    hide Sound, VarFits, Var, ToWord;
    var n := |m.ds|;
    VarStoreIff(m.dict, VarAt(ToWord(m.ds[n - 2])), ToWord(m.ds[n - 3]));
  }

  lemma PokeKeepsSound(m: machine)
    requires Sound(m.dict) && PokeHarmless(m)
    ensures OutcomeSound(PokePrim(m))
  {
    hide Sound, VarFits, Var, ToWord, PutCell, SparesHeaders, Encode;
    var n := |m.ds|;
    if n >= 3 {
      if ToWord(m.ds[n - 2]) < 5 {
        VarPokeIff(m);
      } else if m.ds[n - 1] == 0 {
        SparedSound(m.dict, ToWord(m.ds[n - 2]), m.ds[n - 3]);
      }
    }
  }

  /** The trace, compile and postpone flags, and everything from HERE on, can be stored to
      freely. */
  lemma PokeAnywhere(m: machine)
    requires Sound(m.dict) && |m.ds| >= 3
    requires var addr := ToWord(m.ds[|m.ds| - 2]); addr in {2, 3, 4} || addr >= Var(m.dict, HERE)
    ensures PokeHarmless(m)
  {
    hide Var, ToWord, Encode, HeaderAt;
    var n, d := |m.ds|, m.dict;
    var v, addr := m.ds[n - 3], ToWord(m.ds[n - 2]);
    AboveIsSpared(d, Var(d, LATEST), Var(d, HERE), if addr < 5 then Var(d, HERE) else addr, addr + |Encode(v)|);
  }

  // ------------------------------------------------------------- primitives and runs

  /** Every primitive keeps the dictionary sound, also when it aborts: `!!` when it does no
      harm, all others always. */
  lemma PrimKeepsSound(m: machine, op: nat, arg: input)
    requires Sound(m.dict) && op <= PRIM_COUNT && (op == POKE ==> PokeHarmless(m))
    ensures OutcomeSound(DoPrim(m, op, arg))
  {
    hide Sound, RunStackPrim, GetCell, AddCell, Create, MakeImmediate, SetVar, PokeHarmless, PokePrim;
    if op == COL && arg.Some? {
      CreateSound(m.dict, arg.value);
      if Create(m.dict, arg.value, 0).Done? {
        SetVarSound(Create(m.dict, arg.value, 0).d, COMPILING, 1);
      }
    } else if op == SEMICOL {
      AddCellSound(m.dict, EXIT);
      if AddCell(m.dict, EXIT).Done? {
        SetVarSound(AddCell(m.dict, EXIT).d, COMPILING, 0);
      }
    } else if op == COMMA && Has(m, 2) {
      AddCellSound(m.dict, m.ds[|m.ds| - 2]);
    } else if op == IMMEDIATE {
      MakeImmediateSound(m.dict);
    } else if op == POKE {
      PokeKeepsSound(m);
    }
  }

  /** The next operation pokes. */
  predicate AtPoke(m: machine) {
    GetCell(m.dict, m.ip).Got? && GetCell(m.dict, m.ip).value == POKE
  }

  lemma StepKeepsSound(m: machine, arg: input)
    requires Sound(m.dict) && (AtPoke(m) ==> PokeHarmless(m))
    ensures OutcomeSound(Step(m, arg))
  {
    hide Sound, GetCell, DoPrim, PokeHarmless;
    match GetCell(m.dict, m.ip)
    case Outside =>
    case Got(d, n) =>
      var code := ToWord(d);
      PokeCode(d);
      if code <= PRIM_COUNT {
        HarmlessAnywhere(m, n);
        PrimKeepsSound(Skip(m, n), code, arg);
      }
  }

  /** Whether a poke does harm does not depend on where it stands. */
  lemma HarmlessAnywhere(m: machine, n: nat)
    requires Sound(m.dict)
    ensures PokeHarmless(Skip(m, n)) == PokeHarmless(m)
  {
    hide Sound, VarFits, Var, ToWord, SparesHeaders, Encode;
  }

  lemma PokeCode(d: cell)
    ensures ToWord(d) == POKE <==> d == POKE
  {
  }

  /** Every `!!` the run executes does no harm on the stack it finds. */
  ghost predicate PokesHarmless(m: machine, arg: input, fuel: nat)
    decreases fuel
  {
    m.ip == 0 || fuel == 0 || !Sound(m.dict) ||
    ((AtPoke(m) ==> PokeHarmless(m)) &&
     var o := Step(m, arg);
     o.Running? && o.m.input == INTERPRET ==> PokesHarmless(o.m, None, fuel - 1))
  }

  ghost predicate RunSound(r: RunResult) {
    match r
    case Halted(m) => Sound(m.dict)
    case Suspended(m) => Sound(m.dict)
    case RunAborted(d, _) => Sound(d)
    case RunForeign(m, _) => Sound(m.dict)
    case OutOfFuel(m) => Sound(m.dict)
  }

  /** Whatever code runs, however it ends, the dictionary it leaves is sound. */
  lemma {:induction false} RunKeepsSound(m: machine, arg: input, fuel: nat)
    requires m.input == INTERPRET && Sound(m.dict) && PokesHarmless(m, arg, fuel)
    ensures RunSound(Run(m, arg, fuel))
    decreases fuel
  {
    hide Sound, Step, AtPoke, PokeHarmless;
    if m.ip != 0 && fuel != 0 {
      StepKeepsSound(m, arg);
      var o := Step(m, arg);
      if o.Running? && o.m.input == INTERPRET {
        RunKeepsSound(o.m, None, fuel - 1);
      }
    }
  }

  /** The other kind of poke: with the stack [0, 0, 0], `!!` sets HERE to 0. */
  lemma PokeBreaks(m: machine)
    requires m.ds == [0, 0, 0]
    ensures DoPrim(m, POKE, None).Running? && !WellFormed(DoPrim(m, POKE, None).m.dict)
  {
    hide Chain, AddCell, GetCell, RunStackPrim, MakeImmediate, Create, SetVar, Var, PutCell, Le;
    SetHere(m.dict);
    SetVarReads(m.dict, HERE, 0);
  }

  lemma SetHere(d: dict)
    ensures Write(d, 0, Le(0, 4)) == SetVar(d, HERE, 0)
  {
    hide Le;
  }
}
