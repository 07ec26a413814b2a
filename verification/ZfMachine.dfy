/** zForth's inner interpreter: two bounded stacks, the primitives and the run
    loop (boot/zforth/zforth.c), as functions of the machine state. */
module ZfMachine {
  import opened Words
  import opened ZfCells
  import opened ZfDictionary

  const DSTACK_SIZE: nat := 32
  const RSTACK_SIZE: nat := 32

  datatype Code =
    | INTERNAL_ERROR | OUTSIDE_MEM | DSTACK_UNDERRUN | DSTACK_OVERRUN
    | RSTACK_UNDERRUN | RSTACK_OVERRUN | NOT_A_WORD | INVALID_SIZE | DIVISION_BY_ZERO

  datatype InputState = INTERPRET | PASS_CHAR | PASS_WORD

  const EXIT := 0
  const LIT := 1
  const LTZ := 2
  const COL := 3
  const SEMICOL := 4
  const ADD := 5
  const SUB := 6
  const MUL := 7
  const DIV := 8
  const MOD := 9
  const DROP := 10
  const DUP := 11
  const PICKR := 12
  const IMMEDIATE := 13
  const PEEK := 14
  const POKE := 15
  const SWAP := 16
  const ROT := 17
  const JMP := 18
  const JMP0 := 19
  const TICK := 20
  const COMMENT := 21
  const PUSHR := 22
  const POPR := 23
  const EQUAL := 24
  const SYS := 25
  const PICK := 26
  const COMMA := 27
  const KEY := 28
  const LITS := 29
  const LEN := 30
  const AND := 31
  const RAW_PEEK := 32
  const RAW_POKE := 33
  const PRIM_COUNT := 34

  // ----------------------------------------------------------- data stack

  type stack = s: seq<cell> | |s| <= DSTACK_SIZE

  /** Top of stack is the last element. */
  datatype StackResult = Ok(ds: stack) | Fail(code: Code)

  function Push(ds: stack, v: cell): StackResult {
    if |ds| < DSTACK_SIZE then Ok(ds + [v]) else Fail(DSTACK_OVERRUN)
  }

  function Top(ds: stack): cell
    requires ds != []
  {
    ds[|ds| - 1]
  }

  function Below(ds: stack): stack
    requires ds != []
  {
    ds[..|ds| - 1]
  }

  function Bool(b: bool): cell {
    if b then 1 else 0
  }

  /** The primitives that touch nothing but the data stack. */
  predicate StackPrim(op: nat) {
    op in {LTZ, ADD, SUB, MUL, DIV, MOD, DROP, DUP, SWAP, ROT, EQUAL, PICK, AND}
  }

  function RunStackPrim(op: nat, ds: stack): StackResult
    requires StackPrim(op)
  {
    if ds == [] then Fail(DSTACK_UNDERRUN)
    else
      var a, s1 := Top(ds), Below(ds);
      if op == DROP then Ok(s1)
      else if op == LTZ then Push(s1, Bool(a < 0))
      else if op == DUP then Push(s1 + [a], a)
      else if op == PICK then
        var n := ToWord(a);
        if n < |s1| then Push(s1, s1[|s1| - 1 - n]) else Fail(DSTACK_UNDERRUN)
      else if (op == DIV || op == MOD) && a == 0 then Fail(DIVISION_BY_ZERO)
      else if s1 == [] then Fail(DSTACK_UNDERRUN)
      else
        var b, s2 := Top(s1), Below(s1);
        if op == SWAP then Ok(s2 + [a, b])
        else if op == ADD then Ok(s2 + [ToCell(a + b)])
        else if op == SUB then Ok(s2 + [ToCell(b - a)])
        else if op == MUL then Ok(s2 + [ToCell(a * b)])
        else if op == DIV then Ok(s2 + [DivTrunc(b, a)])
        else if op == MOD then Ok(s2 + [ModTrunc(b, a)])
        else if op == EQUAL then Ok(s2 + [Bool(a == b)])
        else if op == AND then Ok(s2 + [AndCell(a, b)])
        else if s2 == [] then Fail(DSTACK_UNDERRUN)
        else
          var c, s3 := Top(s2), Below(s2);
          Ok(s3 + [b, a, c])
  }

  // --------------------------------------------------------------- machine

  /** The interpreter's state. The run loop keeps the two stack bounds. */
  datatype Machine = Machine(dict: dict, ds: stack, rs: seq<cell>, ip: word, input: InputState)

  type machine = m: Machine | |m.rs| <= RSTACK_SIZE
    witness Machine(seq(DICT_SIZE, _ => 0), [], [], 0, INTERPRET)

  /** One primitive or one step continues, aborts with the dictionary as it then
      is, or reaches an operation outside the model: a system call or a raw
      memory access. */
  datatype Outcome =
    | Running(m: machine)
    | Aborted(dict: dict, code: Code)
    | Foreign(m: machine, op: nat)

  /** What the tokenizer passes to a primitive that asked for input. */
  type input = Option<name>

  function OfStack(m: machine, r: StackResult): Outcome {
    match r
    case Ok(ds) => Running(m.(ds := ds))
    case Fail(code) => Aborted(m.dict, code)
  }

  function OfDict(m: machine, r: Result): Outcome {
    match r
    case Done(d) => Running(m.(dict := d))
    case Abort(d) => Aborted(d, OUTSIDE_MEM)
  }

  /** Fetches the in-line operand cell at ip and steps over it. */
  function Operand(m: machine): Fetch {
    GetCell(m.dict, m.ip)
  }

  function Skip(m: machine, n: nat): machine {
    m.(ip := ToWord(m.ip + n))
  }

  /** The data stack holds at least n cells. */
  predicate Has(m: machine, n: nat) {
    |m.ds| >= n
  }

  datatype Peeked = Value(v: cell, size: nat) | PeekFail(code: Code)

  /** Low addresses name user variables; elsewhere only variable-length cells can
      be read, and a bad address is noticed before a bad size. */
  function Peek(d: dict, addr: word, size: word): Peeked {
    if addr < 5 then Value(ToCell(WordAt(d[4 * addr..4 * addr + 4])), 1)
    else if addr >= DICT_SIZE - 2 then PeekFail(OUTSIDE_MEM)
    else if size != 0 then PeekFail(INVALID_SIZE)
    else
      match GetCell(d, addr)
      case Got(v, n) => Value(v, n)
      case Outside => PeekFail(OUTSIDE_MEM)
  }

  function PeekPrim(m: machine, wantSize: bool): Outcome {
    if !Has(m, 2) then Aborted(m.dict, DSTACK_UNDERRUN)
    else
      var n := |m.ds|;
      match Peek(m.dict, ToWord(m.ds[n - 2]), ToWord(m.ds[n - 1]))
      case PeekFail(code) => Aborted(m.dict, code)
      case Value(v, size) => Running(m.(ds := m.ds[..n - 2] + [if wantSize then size else v]))
  }

  function PokePrim(m: machine): Outcome {
    if !Has(m, 3) then Aborted(m.dict, DSTACK_UNDERRUN)
    else
      var n := |m.ds|;
      var v, addr, size, m1 := m.ds[n - 3], ToWord(m.ds[n - 2]), m.ds[n - 1], m.(ds := m.ds[..n - 3]);
      if addr < 5 then Running(m1.(dict := Write(m.dict, 4 * addr, Le(ToWord(v), 4))))
      else if size != 0 then Aborted(m.dict, INVALID_SIZE)
      else
        match PutCell(m.dict, addr, v)
        case Overrun(d) => Aborted(d, OUTSIDE_MEM)
        case Stored(d, _) => Running(m1.(dict := d))
  }

  function CommaPrim(m: machine): Outcome {
    if !Has(m, 2) then Aborted(m.dict, DSTACK_UNDERRUN)
    else
      var n := |m.ds|;
      if m.ds[n - 1] != 0 then Aborted(m.dict, INVALID_SIZE)
      else OfDict(m.(ds := m.ds[..n - 2]), AddCell(m.dict, m.ds[n - 2]))
  }

  /** `exit`, `>r`, `r>` and `pickr`. */
  function ReturnPrim(m: machine, op: nat): Outcome
    requires op in {EXIT, PUSHR, POPR, PICKR}
  {
    var k := |m.rs|;
    if op == EXIT then
      if k == 0 then Aborted(m.dict, RSTACK_UNDERRUN)
      else Running(m.(ip := ToWord(m.rs[k - 1]), rs := m.rs[..k - 1]))
    else if op == POPR then
      if k == 0 then Aborted(m.dict, RSTACK_UNDERRUN)
      else OfStack(m.(rs := m.rs[..k - 1]), Push(m.ds, m.rs[k - 1]))
    else if m.ds == [] then Aborted(m.dict, DSTACK_UNDERRUN)
    else if op == PUSHR then
      if k == RSTACK_SIZE then Aborted(m.dict, RSTACK_OVERRUN)
      else Running(m.(ds := Below(m.ds), rs := m.rs + [Top(m.ds)]))
    else
      var n := ToWord(Top(m.ds));
      if n < k then Running(m.(ds := Below(m.ds) + [m.rs[k - 1 - n]]))
      else Aborted(m.dict, RSTACK_UNDERRUN)
  }

  /** The primitives that take a cell from the code: `lit`, `'`, `jmp`, `jmp0`,
      `lits`. */
  function OperandPrim(m: machine, op: nat): Outcome
    requires op in {LIT, TICK, JMP, JMP0, LITS}
  {
    match Operand(m)
    case Outside => Aborted(m.dict, OUTSIDE_MEM)
    case Got(v, n) =>
      var m1 := Skip(m, n);
      if op == LIT || op == TICK then OfStack(m1, Push(m.ds, v))
      else if op == JMP then Running(m1.(ip := ToWord(v)))
      else if op == JMP0 then
        if m.ds == [] then Aborted(m.dict, DSTACK_UNDERRUN)
        else
          var m2 := m1.(ds := Below(m.ds));
          Running(if Top(m.ds) == 0 then m2.(ip := ToWord(v)) else m2)
      else
        match Push(m.ds, ToCell(m1.ip))
        case Fail(code) => Aborted(m.dict, code)
        case Ok(ds) => OfStack(m1.(ip := ToWord(m1.ip + v)), Push(ds, v))
  }

  /** The primitives that ask the tokenizer for input: `:`, `(` and `key`. */
  function InputPrim(m: machine, op: nat, arg: input): Outcome
    requires op in {COL, COMMENT, KEY}
  {
    if op == COL then
      match arg
      case None => Running(m.(input := PASS_WORD))
      case Some(s) =>
        match Create(m.dict, s, 0)
        case Abort(d) => Aborted(d, OUTSIDE_MEM)
        case Done(d) => Running(m.(dict := SetVar(d, COMPILING, 1)))
    else if op == COMMENT then
      if arg == None || arg.value[0] != 41 then Running(m.(input := PASS_CHAR)) else Running(m)
    else
      match arg
      case None => Running(m.(input := PASS_CHAR))
      case Some(s) => OfStack(m, Push(m.ds, s[0]))
  }

  /** Closing a definition appends `exit` and leaves compile mode. */
  function SemicolPrim(m: machine): Outcome {
    match AddCell(m.dict, EXIT)
    case Abort(d) => Aborted(d, OUTSIDE_MEM)
    case Done(d) => Running(m.(dict := SetVar(d, COMPILING, 0)))
  }

  function DoPrim(m: machine, op: nat, arg: input): Outcome
    requires op <= PRIM_COUNT
  {
    if StackPrim(op) then OfStack(m, RunStackPrim(op, m.ds))
    else if op in {EXIT, PUSHR, POPR, PICKR} then ReturnPrim(m, op)
    else if op in {LIT, TICK, JMP, JMP0, LITS} then OperandPrim(m, op)
    else if op in {COL, COMMENT, KEY} then InputPrim(m, op, arg)
    else if op == SEMICOL then SemicolPrim(m)
    else if op == PEEK || op == LEN then PeekPrim(m, op == LEN)
    else if op == POKE then PokePrim(m)
    else if op == COMMA then CommaPrim(m)
    else if op == IMMEDIATE then OfDict(m, MakeImmediate(m.dict))
    else if op == PRIM_COUNT then Aborted(m.dict, INTERNAL_ERROR)
    else
      assert op in {SYS, RAW_PEEK, RAW_POKE};
      if !Has(m, if op == RAW_POKE then 2 else 1) then Aborted(m.dict, DSTACK_UNDERRUN) else Foreign(m, op)
  }

  // -------------------------------------------------------------- run loop

  /** How a run ends: the outermost `exit` set ip to 0; a primitive asked for
      input; an abort; a foreign operation; or the bound on steps was reached. */
  datatype RunResult =
    | Halted(m: machine)
    | Suspended(m: machine)
    | RunAborted(dict: dict, code: Code)
    | RunForeign(m: machine, op: nat)
    | OutOfFuel(m: machine)

  /** One turn of the loop at a nonzero ip. */
  function Step(m: machine, arg: input): Outcome {
    match GetCell(m.dict, m.ip)
    case Outside => Aborted(m.dict, OUTSIDE_MEM)
    case Got(d, n) =>
      var code := ToWord(d);
      if code <= PRIM_COUNT then
        match DoPrim(Skip(m, n), code, arg)
        case Running(m1) => if m1.input != INTERPRET then Running(m1.(ip := m.ip)) else Running(m1)
        case other => other
      else if |m.rs| == RSTACK_SIZE then Aborted(m.dict, RSTACK_OVERRUN)
      else Running(m.(rs := m.rs + [ToCell(m.ip + n)], ip := code))
  }

  function Run(m: machine, arg: input, fuel: nat): RunResult
    requires m.input == INTERPRET
    decreases fuel
  {
    if m.ip == 0 then Halted(m)
    else if fuel == 0 then OutOfFuel(m)
    else
      match Step(m, arg)
      case Aborted(d, code) => RunAborted(d, code)
      case Foreign(m1, op) => RunForeign(m1, op)
      case Running(m1) =>
        if m1.input != INTERPRET then Suspended(m1) else Run(m1, None, fuel - 1)
  }

  /** More fuel changes nothing once a run has ended. */
  lemma {:induction false} RunMonotone(m: machine, arg: input, fuel: nat, more: nat)
    requires m.input == INTERPRET && fuel <= more && !Run(m, arg, fuel).OutOfFuel?
    ensures Run(m, arg, more) == Run(m, arg, fuel)
    decreases fuel
  {
    hide Step;
    if m.ip != 0 {
      match Step(m, arg)
      case Running(m1) =>
        if m1.input == INTERPRET {
          RunMonotone(m1, None, fuel - 1, more - 1);
        }
      case _ =>
    }
  }
}
