/** What one turn of zForth's run loop does, operation number by operation number, in
    terms of the bytes in memory and the two stacks (boot/zforth/zforth.c). */
module ZfTurns {
  import opened Words
  import opened ZfCells
  import opened ZfDictionary
  import opened ZfMachine

  // ------------------------------------------------------- bytes in memory

  /** The five user variables are the first five words of memory. */
  lemma VariablesLie(d: dict)
    ensures Var(d, HERE) == Number(d[..4]) && Var(d, LATEST) == Number(d[4..8]) && Var(d, TRACE) == Number(d[8..12])
    ensures Var(d, COMPILING) == Number(d[12..16]) && Var(d, POSTPONE) == Number(d[16..20])
  {
    hide Number;
    NumberIs(d[..4]);
    NumberIs(d[4..8]);
    NumberIs(d[8..12]);
    NumberIs(d[12..16]);
    NumberIs(d[16..20]);
  }

  /** The cell v lies at a in n bytes: a byte below 128 is a cell; a byte below 255 has
      the upper six bits of a cell and the next byte the lower eight; 255 has a whole
      word behind it. Two bytes can be read there, or all five. */
  predicate Lies(d: dict, a: nat, v: cell, n: nat) {
    a < 4094 &&
    if d[a] < 128 then n == 1 && v == d[a]
    else if d[a] < 255 then n == 2 && v == Pair(d[a], d[a + 1])
    else n == 5 && a < 4091 && Wraps(v, Number(d[a + 1..a + 5]))
  }

  function Pair(hi: int, lo: int): int {
    hi % 64 * 256 + lo
  }

  /** Reading a cell aborts exactly when none lies there. */
  lemma CellRead(d: dict, a: nat, v: cell, n: nat)
    ensures GetCell(d, a) == Got(v, n) <==> Lies(d, a, v, n)
  {
    hide Number;
    if a < 4091 && d[a] == 255 {
      NumberIs(d[a + 1..a + 5]);
      ToCellWraps(Number(d[a + 1..a + 5]));
    }
  }

  /** A cell takes one byte from 0 to 127, two up to 16383 and five otherwise. */
  lemma CellWidth(v: cell)
    ensures |Encode(v)| == if 0 <= v < 128 then 1 else if 0 <= v < 16384 then 2 else 5
  {
  }

  /** What has been stored lies there, as far as it can be read. */
  lemma StoredLies(d: dict, a: nat, v: cell)
    requires PutCell(d, a, v).Stored? && a < 4094
    ensures Lies(PutCell(d, a, v).d, a, v, |Encode(v)|)
    ensures forall i :: 0 <= i < 4096 && !(a <= i < a + |Encode(v)|) ==> PutCell(d, a, v).d[i] == d[i]
  {
    hide Encode, GetCell, Lies, PutCell;
    PutCellIsWrite(d, a, v);
    var e := Write(d, a, Encode(v));
    WriteReads(d, a, Encode(v));
    GetEncoded(e, a, v);
    CellRead(e, a, v, |Encode(v)|);
  }

  // ------------------------------------------------------------- the loop

  /** The run loop is about to carry out the operation number op. */
  predicate At(m: machine, op: byte) {
    m.input == INTERPRET && m.ip < 4094 && m.dict[m.ip] == op
  }

  /** An operand of n bytes comes behind it. */
  predicate With(m: machine, v: cell, n: nat) {
    Lies(m.dict, m.ip + 1, v, n)
  }

  function Next(m: machine): machine
    requires m.ip < 4094
  {
    m.(ip := m.ip + 1)
  }

  lemma TurnIs(m: machine, op: byte, arg: input)
    requires At(m, op) && op <= 34
    ensures Step(m, arg) ==
            match DoPrim(Next(m), op, arg)
            case Running(m1) => if m1.input != INTERPRET then Running(m1.(ip := m.ip)) else Running(m1)
            case other => other
  {
    hide DoPrim;
  }

  lemma OperandIs(m: machine, v: cell, n: nat)
    requires m.ip < 4094 && With(m, v, n)
    ensures Operand(Next(m)) == Got(v, n) && Skip(Next(m), n).ip == m.ip + 1 + n < 4096
  {
    hide GetCell, Lies;
    CellRead(m.dict, m.ip + 1, v, n);
  }

  // -------------------------------------------------------------- operands

  /** `lit` and `'` push their operand. */
  lemma Literal(m: machine, v: cell, n: nat)
    requires (At(m, 1) || At(m, 20)) && With(m, v, n)
    ensures |m.ds| < 32 ==> Step(m, None) == Running(m.(ip := m.ip + 1 + n, ds := m.ds + [v]))
    ensures |m.ds| == 32 ==> Step(m, None) == Aborted(m.dict, DSTACK_OVERRUN)
  {
    hide Lies, GetCell, Step;
    TurnIs(m, m.dict[m.ip], None);
    OperandIs(m, v, n);
  }

  /** `jmp` goes to the address that is its operand. */
  lemma Jump(m: machine, v: cell, n: nat, target: word)
    requires At(m, 18) && With(m, v, n) && Wraps(v, target)
    ensures Step(m, None) == Running(m.(ip := target))
  {
    hide Lies, GetCell, Step;
    TurnIs(m, 18, None);
    OperandIs(m, v, n);
  }

  /** `jmp0` does so exactly when the cell it takes is 0. */
  lemma JumpIfZero(m: machine, rest: stack, a: cell, v: cell, n: nat, target: word)
    requires At(m, 19) && With(m, v, n) && Wraps(v, target)
    ensures m.ds == rest + [a] ==>
              Step(m, None) == Running(m.(ip := if a == 0 then target else m.ip + 1 + n, ds := rest))
    ensures m.ds == [] ==> Step(m, None) == Aborted(m.dict, DSTACK_UNDERRUN)
  {
    hide Lies, GetCell, Step;
    TurnIs(m, 19, None);
    OperandIs(m, v, n);
    assert m.ds == rest + [a] ==> Below(m.ds) == rest;
  }

  /** `lits` pushes the address behind its operand and the operand, and goes on that
      many bytes further. */
  lemma TextLiteral(m: machine, v: cell, n: nat, target: word)
    requires At(m, 29) && With(m, v, n) && (m.ip + 1 + n + v - target) % 4294967296 == 0
    ensures |m.ds| < 31 ==> Step(m, None) == Running(m.(ip := target, ds := m.ds + [m.ip + 1 + n, v]))
    ensures |m.ds| >= 31 ==> Step(m, None) == Aborted(m.dict, DSTACK_OVERRUN)
  {
    hide Lies, GetCell, Step;
    TurnIs(m, 29, None);
    OperandIs(m, v, n);
    assert m.ds + [m.ip + 1 + n] + [v] == m.ds + [m.ip + 1 + n, v];
  }

  /** No cell can be read at a. */
  ghost predicate NoCell(d: dict, a: nat) {
    forall v: cell, n: nat :: !Lies(d, a, v, n)
  }

  /** Without an operand to read, all five abort. */
  lemma NoOperand(m: machine, op: byte)
    requires At(m, op) && op in {1, 20, 18, 19, 29} && NoCell(m.dict, m.ip + 1)
    ensures Step(m, None) == Aborted(m.dict, OUTSIDE_MEM)
  {
    hide Lies, Step;
    TurnIs(m, op, None);
    match GetCell(m.dict, m.ip + 1)
    case Outside =>
    case Got(v, n) =>
      CellRead(m.dict, m.ip + 1, v, n);
      assert false;
  }

  // ---------------------------------------------------------- return stack

  /** `>r` moves a cell to the return stack. */
  lemma ToReturn(m: machine, rest: stack, a: cell)
    requires At(m, 22) && m.ds == rest + [a]
    ensures |m.rs| < 32 ==> Step(m, None) == Running(m.(ip := m.ip + 1, ds := rest, rs := m.rs + [a]))
    ensures |m.rs| == 32 ==> Step(m, None) == Aborted(m.dict, RSTACK_OVERRUN)
  {
    hide Step;
    TurnIs(m, 22, None);
    assert Below(m.ds) == rest;
  }

  /** `r>` moves one back. */
  lemma FromReturn(m: machine, rest: seq<cell>, a: cell)
    requires At(m, 23) && m.rs == rest + [a]
    ensures |m.ds| < 32 ==> Step(m, None) == Running(m.(ip := m.ip + 1, ds := m.ds + [a], rs := rest))
    ensures |m.ds| == 32 ==> Step(m, None) == Aborted(m.dict, DSTACK_OVERRUN)
  {
    hide Step;
    TurnIs(m, 23, None);
    assert m.rs[..|m.rs| - 1] == rest;
  }

  /** One after the other they leave both stacks as they were. */
  lemma ThereAndBack(m: machine)
    requires At(m, 22) && m.dict[m.ip + 1] == 23 && m.ip < 4093 && m.ds != [] && |m.rs| < 32
    ensures Step(m, None).Running? && Step(Step(m, None).m, None) == Running(m.(ip := m.ip + 2))
  {
    hide Step;
    var rest, a := m.ds[..|m.ds| - 1], m.ds[|m.ds| - 1];
    ToReturn(m, rest, a);
    FromReturn(m.(ip := m.ip + 1, ds := rest, rs := m.rs + [a]), m.rs, a);
  }

  /** `pickr` copies the a-th cell of the return stack, counted from 0. */
  lemma PickReturn(m: machine, rest: stack, a: cell)
    requires At(m, 12) && m.ds == rest + [a]
    ensures 0 <= a < |m.rs| ==> Step(m, None) == Running(m.(ip := m.ip + 1, ds := rest + [m.rs[|m.rs| - 1 - a]]))
    ensures !(0 <= a < |m.rs|) ==> Step(m, None) == Aborted(m.dict, RSTACK_UNDERRUN)
  {
    hide Step;
    TurnIs(m, 12, None);
    assert Below(m.ds) == rest;
  }

  /** `exit` goes where the return stack says. */
  lemma Exit(m: machine, rest: seq<cell>, a: cell, target: word)
    requires At(m, 0) && m.rs == rest + [a] && Wraps(a, target)
    ensures Step(m, None) == Running(m.(ip := target, rs := rest))
  {
    hide Step;
    TurnIs(m, 0, None);
    assert m.rs[..|m.rs| - 1] == rest;
  }

  /** Nothing can be taken from an empty stack. */
  lemma EmptyStack(m: machine, op: byte)
    requires At(m, op)
    ensures op in {0, 23} && m.rs == [] ==> Step(m, None) == Aborted(m.dict, RSTACK_UNDERRUN)
    ensures op in {12, 22} && m.ds == [] ==> Step(m, None) == Aborted(m.dict, DSTACK_UNDERRUN)
  {
    hide Step;
    if op <= 34 {
      TurnIs(m, op, None);
    }
  }

  /** A number above 34 is the address of code to call. */
  lemma CallTurn(m: machine, v: cell, n: nat, target: word)
    requires Lies(m.dict, m.ip, v, n) && Wraps(v, target) && target > 34
    ensures |m.rs| < 32 ==> Step(m, None) == Running(m.(ip := target, rs := m.rs + [m.ip + n]))
    ensures |m.rs| == 32 ==> Step(m, None) == Aborted(m.dict, RSTACK_OVERRUN)
  {
    hide Lies, GetCell, DoPrim;
    CellRead(m.dict, m.ip, v, n);
  }

  /** 34 itself is no operation. */
  lemma NoOperation(m: machine)
    requires At(m, 34)
    ensures Step(m, None) == Aborted(m.dict, INTERNAL_ERROR)
  {
    hide Step;
    TurnIs(m, 34, None);
  }

  // ----------------------------------------------------------------- input

  /** `key` asks for a character and is carried out again when it comes: it pushes it. */
  lemma Key(m: machine, c: byte)
    requires At(m, 28)
    ensures Step(m, None) == Running(m.(input := PASS_CHAR))
    ensures |m.ds| < 32 ==> Step(m, Some([c])) == Running(m.(ip := m.ip + 1, ds := m.ds + [c]))
    ensures |m.ds| == 32 ==> Step(m, Some([c])) == Aborted(m.dict, DSTACK_OVERRUN)
  {
    hide Step;
    TurnIs(m, 28, None);
    TurnIs(m, 28, Some([c]));
  }

  /** `(` asks for characters up to the closing parenthesis. */
  lemma Comment(m: machine, c: byte)
    requires At(m, 21)
    ensures Step(m, None) == Running(m.(input := PASS_CHAR))
    ensures Step(m, Some([c])) == if c == 41 then Running(m.(ip := m.ip + 1)) else Running(m.(input := PASS_CHAR))
  {
    hide Step;
    TurnIs(m, 21, None);
    TurnIs(m, 21, Some([c]));
  }

  // ---------------------------------------------------------------- memory

  /** `!!` with an address below 5 stores the word of that user variable. */
  lemma StoreVariable(m: machine, rest: stack, v: cell, a: cell, size: cell)
    requires At(m, 15) && m.ds == rest + [v, a, size] && 0 <= a < 5
    ensures var s := Step(m, None);
            s.Running? && s.m == m.(ip := m.ip + 1, ds := rest, dict := s.m.dict) &&
            Wraps(v, Number(s.m.dict[4 * a..4 * a + 4])) &&
            forall i :: 0 <= i < 4096 && !(4 * a <= i < 4 * a + 4) ==> s.m.dict[i] == m.dict[i]
  {
    hide Step, Number, PokePrim;
    TurnIs(m, 15, None);
    PokeVariable(Next(m), rest, v, a, size);
    StoredVariable(m.dict, a, v);
  }

  lemma PokeVariable(m: machine, rest: stack, v: cell, a: nat, size: cell)
    requires m.ds == rest + [v, a, size] && a < 5
    ensures PokePrim(m) == Running(m.(ds := rest, dict := Write(m.dict, 4 * a, Le(ToWord(v), 4))))
  {
    hide PutCell, Le, Write;
    var n := |m.ds|;
    assert m.ds[..n - 3] == rest && m.ds[n - 3] == v && m.ds[n - 2] == a && m.ds[n - 1] == size;
  }

  lemma StoredVariable(d: dict, a: nat, v: cell)
    requires a < 5
    ensures var e := Write(d, 4 * a, Le(ToWord(v), 4));
            Wraps(v, Number(e[4 * a..4 * a + 4])) &&
            forall i :: 0 <= i < 4096 && !(4 * a <= i < 4 * a + 4) ==> e[i] == d[i]
  {
    hide Number;
    var bs := Le(ToWord(v), 4);
    WriteReads(d, 4 * a, bs);
    NumberIs(bs);
    WordRoundTrip(ToWord(v));
    CellWordInverse(v);
    ToCellWraps(ToWord(v));
  }

  /** Elsewhere it stores a cell of variable length; nothing else is supported. */
  lemma StoreCell(m: machine, rest: stack, v: cell, a: cell, size: cell)
    requires At(m, 15) && m.ds == rest + [v, a, size] && !(0 <= a < 5)
    ensures var s := Step(m, None); var w := |Encode(v)|;
            if size != 0 then s == Aborted(m.dict, INVALID_SIZE)
            else if a < 0 || a + w >= 4096 then s.Aborted? && s.code == OUTSIDE_MEM
            else
              s.Running? && s.m == m.(ip := m.ip + 1, ds := rest, dict := s.m.dict) &&
              (a < 4094 ==> Lies(s.m.dict, a, v, w)) &&
              forall i :: 0 <= i < 4096 && !(a <= i < a + w) ==> s.m.dict[i] == m.dict[i]
  {
    hide Step, Lies, Encode, PutCell;
    TurnIs(m, 15, None);
    var n := |m.ds|;
    assert m.ds[..n - 3] == rest && m.ds[n - 3] == v && m.ds[n - 2] == a && m.ds[n - 1] == size;
    var addr := ToWord(a);
    PutCellIsWrite(m.dict, addr, v);
    if 0 <= a < 4094 && a + |Encode(v)| < 4096 {
      StoredLies(m.dict, a, v);
    }
  }

  /** What `@@` fetches and the length `##` gives: a user variable counts as one. */
  predicate Fetches(d: dict, a: cell, size: cell, v: cell, n: nat) {
    if 0 <= a < 5 then n == 1 && Wraps(v, Number(d[4 * a..4 * a + 4]))
    else 5 <= a && size == 0 && Lies(d, a, v, n)
  }

  lemma PeekVariable(d: dict, a: nat, size: cell, v: cell, n: nat)
    requires a < 5
    ensures Peek(d, ToWord(a), ToWord(size)) == Value(v, n) <==> n == 1 && Wraps(v, Number(d[4 * a..4 * a + 4]))
  {
    hide Number, GetCell;
    NumberIs(d[4 * a..4 * a + 4]);
    WrapsOnly(v, Number(d[4 * a..4 * a + 4]));
  }

  lemma PeekIs(d: dict, a: cell, size: cell, v: cell, n: nat)
    ensures Peek(d, ToWord(a), ToWord(size)) == Value(v, n) <==> Fetches(d, a, size, v, n)
  {
    hide Number, Lies, GetCell, Wraps, ToCell;
    if 0 <= a < 5 {
      PeekVariable(d, a, size, v, n);
    } else if 5 <= a {
      CellRead(d, a, v, n);
      LiesLow(d, a, v, n);
    }
  }

  lemma LiesLow(d: dict, a: nat, v: cell, n: nat)
    ensures Lies(d, a, v, n) ==> a < 4094
  {
  }

  /** `@@` pushes the value at an address, `##` its length. */
  lemma FetchCell(m: machine, rest: stack, a: cell, size: cell, v: cell, n: nat)
    requires m.ds == rest + [a, size] && Fetches(m.dict, a, size, v, n)
    ensures At(m, 14) ==> Step(m, None) == Running(m.(ip := m.ip + 1, ds := rest + [v]))
    ensures At(m, 30) ==> Step(m, None) == Running(m.(ip := m.ip + 1, ds := rest + [n]))
  {
    hide Step, Fetches, Peek;
    var k := |m.ds|;
    assert m.ds[..k - 2] == rest && m.ds[k - 2] == a && m.ds[k - 1] == size;
    PeekIs(m.dict, a, size, v, n);
    if At(m, 14) || At(m, 30) {
      TurnIs(m, m.dict[m.ip], None);
    }
  }

  /** `!!` then `@@` at one address gives back what was stored, in a user variable or
      anywhere a cell can be read. */
  lemma StoreThenFetch(m: machine, rest: stack, v: cell, a: cell, m1: machine, below: stack)
    requires At(m, 15) && m.ds == rest + [v, a, 0] && 0 <= a < 4094 && Step(m, None).Running?
    requires m1.dict == Step(m, None).m.dict && m1.ds == below + [a, 0] && At(m1, 14)
    ensures Step(m1, None) == Running(m1.(ip := m1.ip + 1, ds := below + [v]))
  {
    hide Step, Lies, Number, Encode;
    if a < 5 {
      StoreVariable(m, rest, v, a, 0);
      FetchCell(m1, below, a, 0, v, 1);
    } else {
      StoreCell(m, rest, v, a, 0);
      FetchCell(m1, below, a, 0, v, |Encode(v)|);
    }
  }

  /** Where nothing can be fetched, a bad address is noticed before a bad size. */
  lemma NoFetch(m: machine, rest: stack, a: cell, size: cell)
    requires (At(m, 14) || At(m, 30)) && m.ds == rest + [a, size]
    requires forall v: cell, n: nat :: !Fetches(m.dict, a, size, v, n)
    ensures Step(m, None) == Aborted(m.dict, if 5 <= a < 4094 && size != 0 then INVALID_SIZE else OUTSIDE_MEM)
  {
    hide Step, Fetches, GetCell;
    var k := |m.ds|;
    assert m.ds[..k - 2] == rest && m.ds[k - 2] == a && m.ds[k - 1] == size;
    TurnIs(m, m.dict[m.ip], None);
    match Peek(m.dict, ToWord(a), ToWord(size))
    case PeekFail(_) =>
    case Value(v, n) =>
      PeekIs(m.dict, a, size, v, n);
      assert false;
  }

  /** `,,` appends a cell where HERE points and moves HERE behind it. */
  lemma AppendCell(m: machine, rest: stack, v: cell, size: cell)
    requires At(m, 27) && m.ds == rest + [v, size] && 20 <= Number(m.dict[..4]) < 4096
    ensures var s := Step(m, None); var here, w := Number(m.dict[..4]), |Encode(v)|;
            if size != 0 then s == Aborted(m.dict, INVALID_SIZE)
            else if here + w >= 4096 then s.Aborted? && s.code == OUTSIDE_MEM
            else
              s.Running? && s.m == m.(ip := m.ip + 1, ds := rest, dict := s.m.dict) &&
              s.m.dict[here..here + w] == Encode(v) && Number(s.m.dict[..4]) == here + w &&
              forall i :: 4 <= i < here ==> s.m.dict[i] == m.dict[i]
  {
    hide Step, Number, Encode, AddCell, Var;
    var n := |m.ds|;
    assert m.ds[..n - 2] == rest && m.ds[n - 2] == v && m.ds[n - 1] == size;
    TurnIs(m, 27, None);
    VariablesLie(m.dict);
    AddCellAppends(m.dict, v);
    VariablesLie(AddCell(m.dict, v).d);
  }

  // ----------------------------------------------------------- definitions

  /** `:` asks for a word, makes a header for it when it comes, and turns compiling on. */
  lemma Colon(m: machine, s: name)
    requires At(m, 3)
    ensures Step(m, None) == Running(m.(input := PASS_WORD))
    ensures var c, t := Create(m.dict, s, 0), Step(m, Some(s));
            if c.Abort? then t == Aborted(c.d, OUTSIDE_MEM)
            else
              t.Running? && t.m == m.(ip := m.ip + 1, dict := t.m.dict) && Number(t.m.dict[12..16]) == 1 &&
              forall i :: 0 <= i < 4096 && !(12 <= i < 16) ==> t.m.dict[i] == c.d[i]
  {
    hide Step, Create, Number, SetVar;
    TurnIs(m, 3, None);
    TurnIs(m, 3, Some(s));
    Switched(Create(m.dict, s, 0).d, 1);
  }

  lemma Switched(d: dict, w: word)
    ensures Number(SetVar(d, COMPILING, w)[12..16]) == w
    ensures forall i :: 0 <= i < 4096 && !(12 <= i < 16) ==> SetVar(d, COMPILING, w)[i] == d[i]
  {
    hide Number, SetVar;
    SetVarReads(d, COMPILING, w);
    VariablesLie(SetVar(d, COMPILING, w));
  }

  /** `;` appends the number of `exit`, one byte 0, and turns compiling off. */
  lemma Semicolon(m: machine)
    requires At(m, 4) && 20 <= Number(m.dict[..4]) < 4096
    ensures var t := Step(m, None); var here := Number(m.dict[..4]);
            if here == 4095 then t.Aborted? && t.code == OUTSIDE_MEM
            else
              t.Running? && t.m == m.(ip := m.ip + 1, dict := t.m.dict) &&
              t.m.dict[here] == 0 && Number(t.m.dict[..4]) == here + 1 && Number(t.m.dict[12..16]) == 0 &&
              forall i :: 4 <= i < here && !(12 <= i < 16) ==> t.m.dict[i] == m.dict[i]
  {
    hide Step, Number, Encode, AddCell, Var, SetVar;
    TurnIs(m, 4, None);
    VariablesLie(m.dict);
    AddCellAppends(m.dict, 0);
    SmallCell(0);
    var r := AddCell(m.dict, 0);
    if r.Done? {
      var e, here := r.d, Var(m.dict, HERE);
      assert e[here] == e[here..here + 1][0];
      var f := SetVar(e, COMPILING, 0);
      Switched(e, 0);
      VariablesLie(e);
      assert f[..4] == e[..4];
    }
  }

  /** `immediate` sets the bit of value 64 in the newest header's first byte. */
  lemma Immediate(m: machine)
    requires At(m, 13) && WellFormed(m.dict) && Number(m.dict[4..8]) != 0
    ensures var t := Step(m, None); var w := Number(m.dict[4..8]);
            t.Running? && t.m == m.(ip := m.ip + 1, dict := t.m.dict) && w < 4096 &&
            var b: int := m.dict[w];
            t.m.dict[w] == (if b / 64 % 2 == 1 then b else b + 64) &&
            forall i :: 0 <= i < 4096 && i != w ==> t.m.dict[i] == m.dict[i]
  {
    hide Step, Number, Encode, HeaderAt, MakeImmediate, Var;
    TurnIs(m, 13, None);
    VariablesLie(m.dict);
    MakeImmediateEffect(m.dict);
    HeaderByte(m.dict, Var(m.dict, LATEST));
    HeaderByte(MakeImmediate(m.dict).d, Var(m.dict, LATEST));
  }

  lemma HeaderByte(d: dict, w: nat)
    requires HeaderAt(d, w).Some?
    ensures w < 4094 && HeaderAt(d, w).value.lenflags == d[w] < 128
  {
  }

  /** `sys`, `p@` and `p!` reach outside the interpreter. */
  lemma OutsideWorld(m: machine, op: byte)
    requires At(m, op) && op in {25, 32, 33}
    ensures var k := if op == 33 then 2 else 1;
            Step(m, None) == if |m.ds| < k then Aborted(m.dict, DSTACK_UNDERRUN) else Foreign(m.(ip := m.ip + 1), op)
  {
    hide Step;
    TurnIs(m, op, None);
  }

  /** Each of these needs its cells. */
  lemma TooFewForMemory(m: machine, op: byte)
    requires At(m, op) && |m.ds| < (if op == 15 then 3 else 2) && op in {14, 15, 27, 30}
    ensures Step(m, None) == Aborted(m.dict, DSTACK_UNDERRUN)
  {
    hide Step;
    TurnIs(m, op, None);
  }
}
