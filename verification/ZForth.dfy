/** zForth as the source keeps it: a dictionary array, two stack arrays and a few
    static variables, updated in place (boot/zforth/zforth.c). Every method is
    proved against the functions of the Zf modules, and every array access is in
    bounds; comparing names needs the last byte to be 0, all else may be anything. */
module ZForth {
  import opened Words
  import opened Numbers
  import opened ZfCells
  import opened ZfDictionary
  import opened ZfMachine
  import opened ZfEval
  import opened ZfBootstrap
  import opened ZfBounds

  /** How a method that may longjmp returns. */
  datatype Status = Fine | Threw(code: Code) | Alien(op: nat) | Exhausted

  /** The status and state a primitive or step must leave. After an abort only the
      dictionary and the input state matter; zf_eval resets the rest. */
  ghost predicate Leaves(o: Outcome, r: Status, m: machine) {
    match o
    case Running(m1) => r == Fine && m == m1
    case Aborted(d, code) => r == Threw(code) && m.dict == d && m.input == INTERPRET
    case Foreign(m1, op) => r == Alien(op) && m == m1
  }

  /** The same for the run loop and for whole words. */
  ghost predicate WordLeaves(w: WordResult, r: Status, m: machine) {
    match w
    case Next(m1) => r == Fine && m == m1
    case Failed(d, code) => r == Threw(code) && m.dict == d && m.input == INTERPRET
    case Escaped(m1, op) => r == Alien(op) && m == m1
    case Unfinished(m1) => r == Exhausted && m == m1
    case Astray => false
  }

  /** And for one character: the tokenizer's buffer is part of the state. */
  ghost predicate CharLeaves(q: CharResult, r: Status, m: machine, buf: seq<byte>) {
    match q
    case More(t) => r == Fine && t == Session(m, buf)
    case Broke(d, code) => r == Threw(code) && m.dict == d && m.input == INTERPRET
    case Left(m1) => (r.Alien? || r.Exhausted?) && m == m1
    case Astray => false
  }

  /** After an abort both stacks are empty, compile mode is off, and only ip keeps a
      value of no further use. */
  ghost predicate EvalLeaves(e: Evaluation, r: Status, m: machine, buf: seq<byte>) {
    match e
    case Evaluated(t) => r == Fine && t == Session(m, buf)
    case Recovered(m1, code) => r == Threw(code) && m == m1.(ip := m.ip)
    case Gone(m1) => (r.Alien? || r.Exhausted?) && m == m1
    case Astray => false
  }

  /** The same before an abort is recovered from. */
  ghost predicate LoopLeaves(e: Evaluation, r: Status, m: machine, buf: seq<byte>) {
    match e
    case Evaluated(t) => r == Fine && t == Session(m, buf)
    case Recovered(m1, code) => r == Threw(code) && m1 == ZfEval.Recover(m.dict) && m.input == INTERPRET
    case Gone(m1) => (r.Alien? || r.Exhausted?) && m == m1
    case Astray => false
  }

  class Interpreter {
    const dict: array<byte>
    const dstack: array<cell>
    const rstack: array<cell>
    const buf: array<byte>
    var len: nat
    var dsp: nat
    var rsp: nat
    var ip: word
    var inputState: InputState

    ghost predicate Valid()
      reads this
    {
      dict.Length == DICT_SIZE && dstack.Length == DSTACK_SIZE && rstack.Length == RSTACK_SIZE &&
      buf.Length == 32 && len <= 31 && buf != dict &&
      dstack != rstack && (dict as object) != dstack && (dict as object) != rstack &&
      (buf as object) != dstack && (buf as object) != rstack &&
      dsp <= DSTACK_SIZE && rsp <= RSTACK_SIZE
    }

    ghost function Dict(): dict
      requires Valid()
      reads this, dict
    {
      dict[..]
    }

    ghost function State(): machine
      requires Valid()
      reads this, dict, dstack, rstack
    {
      Machine(dict[..], dstack[..dsp], rstack[..rsp], ip, inputState)
    }

    /** The last dictionary byte and the characters collected keep every comparison of
        names inside the array. */
    ghost predicate Intact()
      requires Valid()
      reads this, dict, buf
    {
      Terminated(Dict()) && CString(buf[..len])
    }

    /** Static storage starts out zero. */
    constructor ()
      ensures Valid() && Intact() && fresh(dict) && fresh(dstack) && fresh(rstack) && fresh(buf)
      ensures State() == Machine(seq(DICT_SIZE, _ => 0), [], [], 0, INTERPRET) && len == 0
    {
      dict := new byte[DICT_SIZE](_ => 0);
      dstack := new cell[DSTACK_SIZE](_ => 0);
      rstack := new cell[RSTACK_SIZE](_ => 0);
      buf := new byte[32](_ => 0);
      len, dsp, rsp, ip, inputState := 0, 0, 0, 0, INTERPRET;
      new;
      assert dict[..] == seq(DICT_SIZE, _ => 0);
    }

    // ------------------------------------------------------------ stacks

    method Push(v: cell) returns (r: Status)
      requires Valid()
      modifies this`dsp, dstack
      ensures Valid()
      ensures |old(State()).ds| < DSTACK_SIZE ==> r == Fine && State() == old(State()).(ds := old(State()).ds + [v])
      ensures |old(State()).ds| == DSTACK_SIZE ==> r == Threw(DSTACK_OVERRUN) && State() == old(State())
    {
      if dsp < DSTACK_SIZE {
        dstack[dsp] := v;
        dsp := dsp + 1;
        return Fine;
      }
      return Threw(DSTACK_OVERRUN);
    }

    method Pop() returns (r: Status, v: cell)
      requires Valid()
      modifies this`dsp
      ensures Valid()
      ensures old(State()).ds != [] ==>
                r == Fine && v == Top(old(State()).ds) &&
                State() == old(State()).(ds := Below(old(State()).ds))
      ensures old(State()).ds == [] ==> r == Threw(DSTACK_UNDERRUN) && State() == old(State())
    {
      v := 0;
      if dsp > 0 {
        dsp := dsp - 1;
        v := dstack[dsp];
        return Fine, v;
      }
      return Threw(DSTACK_UNDERRUN), v;
    }

    method PushR(v: cell) returns (r: Status)
      requires Valid()
      modifies this`rsp, rstack
      ensures Valid()
      ensures |old(State()).rs| < RSTACK_SIZE ==> r == Fine && State() == old(State()).(rs := old(State()).rs + [v])
      ensures |old(State()).rs| == RSTACK_SIZE ==> r == Threw(RSTACK_OVERRUN) && State() == old(State())
    {
      if rsp < RSTACK_SIZE {
        rstack[rsp] := v;
        rsp := rsp + 1;
        return Fine;
      }
      return Threw(RSTACK_OVERRUN);
    }

    method PopR() returns (r: Status, v: cell)
      requires Valid()
      modifies this`rsp
      ensures Valid()
      ensures var rs := old(State()).rs;
              rs != [] ==> r == Fine && v == rs[|rs| - 1] && State() == old(State()).(rs := rs[..|rs| - 1])
      ensures old(State()).rs == [] ==> r == Threw(RSTACK_UNDERRUN) && State() == old(State())
    {
      v := 0;
      if rsp > 0 {
        rsp := rsp - 1;
        v := rstack[rsp];
        return Fine, v;
      }
      return Threw(RSTACK_UNDERRUN), v;
    }

    // ------------------------------------------------------- dictionary

    /** The bounds-checked copy loop. */
    method PutBytes(addr: nat, bs: seq<byte>) returns (ok: bool)
      requires Valid() && |bs| < DICT_SIZE
      modifies dict
      ensures Valid()
      ensures ok == ZfCells.PutBytes(old(Dict()), addr, bs).Stored?
      ensures ok ==> ZfCells.PutBytes(old(Dict()), addr, bs).size == |bs|
      ensures Dict() == ZfCells.PutBytes(old(Dict()), addr, bs).d
    {
      if addr >= DICT_SIZE - |bs| {
        return false;
      }
      var i := 0;
      ghost var was := dict[..];
      while i < |bs|
        invariant 0 <= i <= |bs| && dict.Length == DICT_SIZE
        invariant forall k :: 0 <= k < DICT_SIZE ==>
                    dict[k] == if addr <= k < addr + i then bs[k - addr] else was[k]
      {
        dict[addr + i] := bs[i];
        i := i + 1;
      }
      assert dict[..] == Write(was, addr, bs);
      return true;
    }

    method PutCell(addr: nat, v: cell) returns (ok: bool, n: nat)
      requires Valid()
      modifies dict
      ensures Valid()
      ensures ok == ZfCells.PutCell(old(Dict()), addr, v).Stored?
      ensures Dict() == ZfCells.PutCell(old(Dict()), addr, v).d
      ensures ok ==> n == ZfCells.PutCell(old(Dict()), addr, v).size
    {
      hide Le, Write;
      var vi: int := ToWord(v);
      if vi < 128 {
        ok := PutBytes(addr, [vi]);
        n := 1;
      } else if vi < 16384 {
        ok := PutBytes(addr, [128 + vi / 256, vi % 256]);
        n := 2;
      } else {
        ok := PutBytes(addr, [255]);
        n := 5;
        assert Encode(v)[..1] == [255] && Encode(v)[1..] == Le(vi, 4);
        if ok {
          ok := PutBytes(addr + 1, Le(vi, 4));
        }
      }
    }

    method GetCell(addr: nat) returns (ok: bool, v: cell, n: nat)
      requires Valid()
      ensures ok == ZfCells.GetCell(Dict(), addr).Got?
      ensures ok ==> ZfCells.GetCell(Dict(), addr) == Got(v, n)
    {
      v, n := 0, 0;
      if addr >= DICT_SIZE - 2 {
        return false, v, n;
      }
      var t0: int, t1: int := dict[addr], dict[addr + 1];
      if t0 >= 128 {
        if t0 == 255 {
          if addr + 1 >= DICT_SIZE - 4 {
            return false, v, n;
          }
          assert dict[..][addr + 1..addr + 5] == dict[addr + 1..addr + 5];
          return true, ToCell(WordAt(dict[addr + 1..addr + 5])), 5;
        }
        return true, t0 % 64 * 256 + t1, 2;
      }
      return true, t0, 1;
    }

    method GetVar(u: UserVar) returns (w: word)
      requires Valid()
      ensures w == Var(Dict(), u)
    {
      assert dict[..][u.Offset()..u.Offset() + 4] == dict[u.Offset()..u.Offset() + 4];
      w := WordAt(dict[u.Offset()..u.Offset() + 4]);
    }

    method StoreWord(offset: nat, w: word)
      requires Valid() && offset + 4 <= DICT_SIZE
      modifies dict
      ensures Valid() && Dict() == Write(old(Dict()), offset, Le(w, 4))
    {
      var bs := Le(w, 4);
      ghost var was := dict[..];
      dict[offset], dict[offset + 1], dict[offset + 2], dict[offset + 3] := bs[0], bs[1], bs[2], bs[3];
      assert dict[..] == Write(was, offset, bs);
    }

    method AddCell(v: cell) returns (ok: bool)
      requires Valid()
      modifies dict
      ensures Valid()
      ensures ok == ZfDictionary.AddCell(old(Dict()), v).Done? && Dict() == ZfDictionary.AddCell(old(Dict()), v).d
    {
      hide ZfCells.PutCell, Write, Var, Le;
      var here := GetVar(HERE);
      var n;
      ok, n := PutCell(here, v);
      if ok {
        here := GetVar(HERE);
        StoreWord(0, ToWord(here + n));
      }
    }

    method AddBytes(s: seq<byte>) returns (ok: bool)
      requires Valid() && |s| < DICT_SIZE
      modifies dict
      ensures Valid()
      ensures ok == ZfDictionary.AddBytes(old(Dict()), s).Done? && Dict() == ZfDictionary.AddBytes(old(Dict()), s).d
    {
      hide ZfCells.PutBytes, Write, Var, Le;
      var here := GetVar(HERE);
      ok := PutBytes(here, s);
      if ok {
        here := GetVar(HERE);
        StoreWord(0, ToWord(here + |s|));
      }
    }

    method Create(s: name, flags: nat) returns (ok: bool)
      requires Valid() && (flags == 0 || flags == FLAG_PRIM)
      modifies dict
      ensures Valid()
      ensures ok == ZfDictionary.Create(old(Dict()), s, flags).Done?
      ensures Dict() == ZfDictionary.Create(old(Dict()), s, flags).d
    {
      hide ZfDictionary.AddCell, ZfDictionary.AddBytes, Write, Var, Le;
      var herePrev := GetVar(HERE);
      ok := AddCell(|s| + flags);
      if ok {
        var latest := GetVar(LATEST);
        ok := AddCell(ToCell(latest));
        if ok {
          ok := AddBytes(s);
          if ok {
            StoreWord(4, herePrev);
          }
        }
      }
    }

    method MakeImmediate() returns (ok: bool)
      requires Valid()
      modifies dict
      ensures Valid()
      ensures ok == ZfDictionary.MakeImmediate(old(Dict())).Done?
      ensures Dict() == ZfDictionary.MakeImmediate(old(Dict())).d
    {
      hide ZfCells.PutCell, ZfCells.GetCell, Var, SetImmediate;
      var latest := GetVar(LATEST);
      var lenflags, n;
      ok, lenflags, n := GetCell(latest);
      if ok {
        ok, n := PutCell(latest, SetImmediate(lenflags));
      }
    }

    /** memcmp of s against the dictionary bytes from p on. */
    method SameName(s: seq<byte>, p: nat) returns (same: bool)
      requires Valid() && p < DICT_SIZE && Terminated(Dict()) && CString(s)
      ensures Compare(Dict(), p, s, 0) != PastEnd && same == Compare(Dict(), p, s, 0).Same?
    {
      ComparesInside(Dict(), p, s, 0);
      var i := 0;
      while i < |s| && dict[p + i] == s[i]
        invariant 0 <= i <= |s| && Compare(Dict(), p, s, i) == Compare(Dict(), p, s, 0)
        invariant i < |s| ==> p + i < DICT_SIZE
      {
        i := i + 1;
      }
      same := i == |s|;
    }

    /** The search loop of find_word. */
    method FindWord(s: name) returns (r: Search)
      requires Valid() && Terminated(Dict()) && CString(s)
      ensures r == ZfEval.FindWord(Dict(), s, Var(Dict(), LATEST), DICT_SIZE) && r != Strayed
    {
      hide ZfCells.GetCell, Var, Compare, Terminated, ToWord;
      var w: nat := GetVar(LATEST);
      var turns := DICT_SIZE;
      while w != 0
        invariant ZfEval.FindWord(Dict(), s, w, turns) ==
                  ZfEval.FindWord(Dict(), s, Var(Dict(), LATEST), DICT_SIZE)
        decreases turns
      {
        if turns == 0 {
          return Lost;
        }
        var ok, d, n := GetCell(w);
        if !ok {
          return Unreadable;
        }
        var link, k;
        ok, link, k := GetCell(w + n);
        if !ok {
          return Unreadable;
        }
        var p, len := w + n + k, d % 32;
        if len == |s| {
          var same := SameName(s, p);
          if same {
            return Found(Hit(w, p + len));
          }
        }
        w := ToWord(link);
        turns := turns - 1;
      }
      return Missing;
    }

    // ------------------------------------------------------- primitives

    /** drop, <0, dup, pick: one cell off the stack. */
    method UnaryPrim(op: nat) returns (r: Status)
      requires Valid() && inputState == INTERPRET && op in {DROP, LTZ, DUP, PICK}
      modifies this`dsp, dstack
      ensures Valid()
      ensures Leaves(OfStack(old(State()), RunStackPrim(op, old(State()).ds)), r, State())
    {
      var a;
      r, a := Pop();
      if r != Fine {
        return;
      }
      if op == LTZ {
        r := Push(Bool(a < 0));
      } else if op == DUP {
        r := Push(a);
        if r == Fine {
          r := Push(a);
        }
      } else if op == PICK {
        var n := ToWord(a);
        if n >= dsp {
          return Threw(DSTACK_UNDERRUN);
        }
        r := Push(dstack[dsp - n - 1]);
      }
    }

    /** The primitives that pop two cells and push one; division by zero is noticed
        after the first. */
    method BinaryPrim(op: nat) returns (r: Status)
      requires Valid() && inputState == INTERPRET && op in {ADD, SUB, MUL, DIV, MOD, EQUAL, AND}
      modifies this`dsp, dstack
      ensures Valid()
      ensures Leaves(OfStack(old(State()), RunStackPrim(op, old(State()).ds)), r, State())
    {
      hide RunStackPrim, BinaryValue;
      BinaryMeans(op, State().ds);
      var a, b;
      r, a := Pop();
      if r != Fine {
        return;
      }
      if (op == DIV || op == MOD) && a == 0 {
        return Threw(DIVISION_BY_ZERO);
      }
      r, b := Pop();
      if r != Fine {
        return;
      }
      ghost var rest := State().ds;
      r := Push(BinaryValue(op, a, b));
      assert State().ds == rest + [BinaryValue(op, a, b)];
    }

    /** What an operator makes of the top of the stack and the cell below it. */
    function BinaryValue(op: nat, a: cell, b: cell): cell
      requires op in {ADD, SUB, MUL, DIV, MOD, EQUAL, AND} && (op in {DIV, MOD} ==> a != 0)
    {
      if op == ADD then ToCell(a + b)
      else if op == SUB then ToCell(b - a)
      else if op == MUL then ToCell(a * b)
      else if op == DIV then DivTrunc(b, a)
      else if op == MOD then ModTrunc(b, a)
      else if op == EQUAL then Bool(a == b)
      else AndCell(a, b)
    }

    lemma BinaryMeans(op: nat, ds: stack)
      requires op in {ADD, SUB, MUL, DIV, MOD, EQUAL, AND}
      ensures ds == [] ==> RunStackPrim(op, ds) == Fail(DSTACK_UNDERRUN)
      ensures var n := |ds|;
              n >= 1 && op in {DIV, MOD} && ds[n - 1] == 0 ==> RunStackPrim(op, ds) == Fail(DIVISION_BY_ZERO)
      ensures |ds| == 1 && !(op in {DIV, MOD} && ds[0] == 0) ==> RunStackPrim(op, ds) == Fail(DSTACK_UNDERRUN)
      ensures var n := |ds|;
              n >= 2 && !(op in {DIV, MOD} && ds[n - 1] == 0) ==>
                RunStackPrim(op, ds) == Ok(ds[..n - 2] + [BinaryValue(op, ds[n - 1], ds[n - 2])])
    {
      hide AndBits, DivTrunc, ModTrunc, ToCell;
      if |ds| >= 2 {
        assert ds[..|ds| - 1][..|ds| - 2] == ds[..|ds| - 2];
      }
    }

    method SwapPrim() returns (r: Status)
      requires Valid() && inputState == INTERPRET
      modifies this`dsp, dstack
      ensures Valid()
      ensures Leaves(OfStack(old(State()), RunStackPrim(SWAP, old(State()).ds)), r, State())
    {
      hide RunStackPrim;
      SwapMeans(State().ds);
      var a, b;
      r, a, b := PopTwo();
      if r == Fine {
        ghost var rest := State().ds;
        r := Push(a);
        r := Push(b);
        assert State().ds == rest + [a, b];
      }
    }

    lemma SwapMeans(ds: stack)
      ensures |ds| < 2 ==> RunStackPrim(SWAP, ds) == Fail(DSTACK_UNDERRUN)
      ensures |ds| >= 2 ==> var n := |ds|; RunStackPrim(SWAP, ds) == Ok(ds[..n - 2] + [ds[n - 1], ds[n - 2]])
    {
      if |ds| >= 2 {
        assert ds[..|ds| - 1][..|ds| - 2] == ds[..|ds| - 2];
      }
    }

    /** Two pops in a row; they can run out at either. */
    method PopTwo() returns (r: Status, a: cell, b: cell)
      requires Valid()
      modifies this`dsp
      ensures Valid()
      ensures var ds := old(State()).ds;
              |ds| >= 2 ==> r == Fine && a == ds[|ds| - 1] && b == ds[|ds| - 2] &&
                            State() == old(State()).(ds := ds[..|ds| - 2])
      ensures |old(State()).ds| < 2 ==>
                r == Threw(DSTACK_UNDERRUN) && State() == old(State()).(ds := State().ds)
    {
      b := 0;
      r, a := Pop();
      if r == Fine {
        r, b := Pop();
      }
    }

    /** Three pops in a row; they can run out at any of them. */
    method PopThree() returns (r: Status, a: cell, b: cell, c: cell)
      requires Valid()
      modifies this`dsp
      ensures Valid()
      ensures var ds := old(State()).ds;
              |ds| >= 3 ==> r == Fine && a == ds[|ds| - 1] && b == ds[|ds| - 2] && c == ds[|ds| - 3] &&
                            State() == old(State()).(ds := ds[..|ds| - 3])
      ensures |old(State()).ds| < 3 ==>
                r == Threw(DSTACK_UNDERRUN) && State() == old(State()).(ds := State().ds)
    {
      b, c := 0, 0;
      r, a := Pop();
      if r != Fine {
        return;
      }
      r, b := Pop();
      if r != Fine {
        return;
      }
      r, c := Pop();
    }

    method RotPrim() returns (r: Status)
      requires Valid() && inputState == INTERPRET
      modifies this`dsp, dstack
      ensures Valid()
      ensures Leaves(OfStack(old(State()), RunStackPrim(ROT, old(State()).ds)), r, State())
    {
      hide RunStackPrim, Top, Below;
      RotMeans(State().ds);
      var a, b, c;
      r, a, b, c := PopThree();
      if r == Fine {
        ghost var rest := State().ds;
        r := Push(b);
        r := Push(a);
        r := Push(c);
        assert State().ds == rest + [b, a, c];
      }
    }

    lemma RotMeans(ds: stack)
      ensures |ds| < 3 ==> RunStackPrim(ROT, ds) == Fail(DSTACK_UNDERRUN)
      ensures |ds| >= 3 ==> var n := |ds|;
                RunStackPrim(ROT, ds) == Ok(ds[..n - 3] + [ds[n - 2], ds[n - 1], ds[n - 3]])
    {
      if |ds| >= 3 {
        assert ds[..|ds| - 1][..|ds| - 2][..|ds| - 3] == ds[..|ds| - 3];
      }
    }

    method ReturnStackPrim(op: nat) returns (r: Status)
      requires Valid() && inputState == INTERPRET && op in {EXIT, PUSHR, POPR, PICKR}
      modifies this`dsp, this`rsp, this`ip, dstack, rstack
      ensures Valid()
      ensures Leaves(ReturnPrim(old(State()), op), r, State())
    {
      hide ReturnPrim;
      if op == EXIT || op == POPR {
        r := UnstackingPrim(op);
      } else {
        r := StackingPrim(op);
      }
    }

    /** `exit` and `r>`. */
    method UnstackingPrim(op: nat) returns (r: Status)
      requires Valid() && inputState == INTERPRET && op in {EXIT, POPR}
      modifies this`dsp, this`rsp, this`ip, dstack
      ensures Valid()
      ensures Leaves(ReturnPrim(old(State()), op), r, State())
    {
      hide ToWord;
      var v;
      r, v := PopR();
      if r == Fine {
        if op == EXIT {
          ip := ToWord(v);
        } else {
          r := Push(v);
        }
      }
    }

    /** `>r` and `pickr`. */
    method StackingPrim(op: nat) returns (r: Status)
      requires Valid() && inputState == INTERPRET && op in {PUSHR, PICKR}
      modifies this`dsp, this`rsp, dstack, rstack
      ensures Valid()
      ensures Leaves(ReturnPrim(old(State()), op), r, State())
    {
      hide ToWord;
      var v;
      r, v := Pop();
      if r != Fine {
        return;
      }
      if op == PUSHR {
        r := PushR(v);
      } else {
        var n := ToWord(v);
        if n >= rsp {
          return Threw(RSTACK_UNDERRUN);
        }
        r := Push(rstack[rsp - n - 1]);
      }
    }

    /** `jmp` and `jmp0`, their operand d1 fetched. */
    method JumpPrim(op: nat, d1: cell) returns (r: Status)
      requires Valid() && inputState == INTERPRET && op in {JMP, JMP0}
      modifies this`dsp, this`ip
      ensures Valid()
      ensures var m := old(State());
              Leaves(if op == JMP then Running(m.(ip := ToWord(d1)))
                     else if m.ds == [] then Aborted(m.dict, DSTACK_UNDERRUN)
                     else Running(m.(ds := Below(m.ds), ip := if Top(m.ds) == 0 then ToWord(d1) else m.ip)), r, State())
    {
      hide ToWord;
      if op == JMP {
        ip := ToWord(d1);
        r := Fine;
      } else {
        var v;
        r, v := Pop();
        if r == Fine && v == 0 {
          ip := ToWord(d1);
        }
      }
    }

    /** `lits`, its operand fetched: where the string is, how long it is, and past it. */
    method LitsPrim(d1: cell) returns (r: Status)
      requires Valid() && inputState == INTERPRET
      modifies this`dsp, this`ip, dstack
      ensures Valid()
      ensures var m := old(State());
              Leaves(if |m.ds| + 2 > DSTACK_SIZE then Aborted(m.dict, DSTACK_OVERRUN)
                     else Running(m.(ds := m.ds + [ToCell(m.ip)] + [d1], ip := ToWord(m.ip + d1))), r, State())
    {
      hide ToWord, ToCell;
      r := Push(ToCell(ip));
      if r == Fine {
        r := Push(d1);
        if r == Fine {
          ip := ToWord(ip + d1);
        }
      }
    }

    method InlinePrim(op: nat) returns (r: Status)
      requires Valid() && inputState == INTERPRET && op in {LIT, TICK, JMP, JMP0, LITS}
      modifies this`dsp, this`ip, dstack
      ensures Valid()
      ensures Leaves(OperandPrim(old(State()), op), r, State())
    {
      hide ZfCells.GetCell, ToWord, ToCell;
      var ok, d1, n := GetCell(ip);
      if !ok {
        return Threw(OUTSIDE_MEM);
      }
      ip := ToWord(ip + n);
      if op == LIT || op == TICK {
        r := Push(d1);
      } else if op == JMP || op == JMP0 {
        r := JumpPrim(op, d1);
      } else {
        r := LitsPrim(d1);
      }
    }

    method AskingPrim(op: nat, arg: input) returns (r: Status)
      requires Valid() && inputState == INTERPRET && op in {COL, COMMENT, KEY}
      modifies this`dsp, this`inputState, dstack, dict
      ensures Valid()
      ensures Leaves(InputPrim(old(State()), op, arg), r, State())
    {
      hide ZfDictionary.Create, Le;
      r := Fine;
      if op == COL {
        if arg == None {
          inputState := PASS_WORD;
        } else {
          var ok := Create(arg.value, 0);
          if !ok {
            return Threw(OUTSIDE_MEM);
          }
          StoreWord(12, 1);
        }
      } else if op == COMMENT {
        if arg == None || arg.value[0] != 41 {
          inputState := PASS_CHAR;
        }
      } else if arg == None {
        inputState := PASS_CHAR;
      } else {
        r := Push(arg.value[0]);
      }
    }

    /** Reading for `@@` and `##`. */
    method PeekAt(a: word, size: word) returns (r: Status, v: cell, n: nat)
      requires Valid()
      ensures r == Fine ==> Peek(Dict(), a, size) == Value(v, n)
      ensures r != Fine ==> Peek(Dict(), a, size).PeekFail? && r == Threw(Peek(Dict(), a, size).code)
      ensures n <= 5
    {
      hide ZfCells.GetCell;
      v, n := 0, 1;
      if a < 5 {
        assert dict[..][4 * a..4 * a + 4] == dict[4 * a..4 * a + 4];
        return Fine, ToCell(WordAt(dict[4 * a..4 * a + 4])), 1;
      }
      if a >= DICT_SIZE - 2 {
        return Threw(OUTSIDE_MEM), v, n;
      }
      if size != 0 {
        return Threw(INVALID_SIZE), v, n;
      }
      var ok;
      ok, v, n := GetCell(a);
      if !ok {
        return Threw(OUTSIDE_MEM), 0, 1;
      }
      return Fine, v, n;
    }

    /** `@@` and `##`. */
    method PeekingPrim(op: nat) returns (r: Status)
      requires Valid() && inputState == INTERPRET && op in {PEEK, LEN}
      modifies this`dsp, dstack
      ensures Valid()
      ensures Leaves(PeekPrim(old(State()), op == LEN), r, State())
    {
      hide Peek;
      var size, addr, v, n := 0, 0, 0, 1;
      r, size, addr := PopTwo();
      if r != Fine {
        return;
      }
      ghost var rest := State().ds;
      r, v, n := PeekAt(ToWord(addr), ToWord(size));
      if r == Fine {
        r := Push(if op == LEN then n else v);
        assert State().ds == rest + [if op == LEN then n else v];
      }
    }

    /** `!!`, by a user variable's number or by an address in the dictionary. */
    method PokingPrim() returns (r: Status)
      requires Valid() && inputState == INTERPRET
      modifies this`dsp, dict
      ensures Valid()
      ensures Leaves(PokePrim(old(State())), r, State())
    {
      hide ZfCells.PutCell, ToWord, Le;
      var size, addr, v;
      r, size, addr, v := PopThree();
      if r != Fine {
        return;
      }
      var a := ToWord(addr);
      if a < 5 {
        StoreWord(4 * a, ToWord(v));
        return;
      }
      if size != 0 {
        return Threw(INVALID_SIZE);
      }
      var ok, n := PutCell(a, v);
      r := if ok then Fine else Threw(OUTSIDE_MEM);
    }

    /** `,,`. */
    method AppendingPrim() returns (r: Status)
      requires Valid() && inputState == INTERPRET
      modifies this`dsp, dict
      ensures Valid()
      ensures Leaves(CommaPrim(old(State())), r, State())
    {
      hide ZfDictionary.AddCell, Le;
      var size, v;
      r, size := Pop();
      if r != Fine {
        return;
      }
      r, v := Pop();
      if r != Fine {
        return;
      }
      if size != 0 {
        return Threw(INVALID_SIZE);
      }
      var ok := AddCell(v);
      r := if ok then Fine else Threw(OUTSIDE_MEM);
    }

    /** The switch over all primitives. */
    method Primitive(op: nat, arg: input) returns (r: Status)
      requires Valid() && inputState == INTERPRET && op <= PRIM_COUNT
      modifies this`dsp, this`rsp, this`ip, this`inputState, dict, dstack, rstack
      ensures Valid()
      ensures Leaves(DoPrim(old(State()), op, arg), r, State())
    {
      hide RunStackPrim, ReturnPrim, OperandPrim, InputPrim, PeekPrim, PokePrim, CommaPrim,
        ZfDictionary.MakeImmediate, ZfDictionary.AddCell, Le;
      if op in {DROP, LTZ, DUP, PICK} {
        r := UnaryPrim(op);
      } else if op in {ADD, SUB, MUL, DIV, MOD, EQUAL, AND} {
        r := BinaryPrim(op);
      } else if op == SWAP {
        r := SwapPrim();
      } else if op == ROT {
        r := RotPrim();
      } else if op in {EXIT, PUSHR, POPR, PICKR} {
        r := ReturnStackPrim(op);
      } else if op in {LIT, TICK, JMP, JMP0, LITS} {
        r := InlinePrim(op);
      } else if op in {COL, COMMENT, KEY} {
        r := AskingPrim(op, arg);
      } else if op in {PEEK, LEN} {
        r := PeekingPrim(op);
      } else if op == POKE {
        r := PokingPrim();
      } else if op == COMMA {
        r := AppendingPrim();
      } else if op == SEMICOL {
        var ok := AddCell(EXIT);
        if !ok {
          return Threw(OUTSIDE_MEM);
        }
        StoreWord(12, 0);
        r := Fine;
      } else if op == IMMEDIATE {
        var ok := MakeImmediate();
        r := if ok then Fine else Threw(OUTSIDE_MEM);
      } else if op == PRIM_COUNT {
        r := Threw(INTERNAL_ERROR);
      } else if dsp < (if op == RAW_POKE then 2 else 1) {
        r := Threw(DSTACK_UNDERRUN);
      } else {
        r := Alien(op);
      }
    }
  
    // ------------------------------------------------------------- running

    /** One turn of the inner interpreter. */
    method Turn(arg: input) returns (r: Status)
      requires Valid() && inputState == INTERPRET
      modifies this`dsp, this`rsp, this`ip, this`inputState, dict, dstack, rstack
      ensures Valid()
      ensures Leaves(Step(old(State()), arg), r, State())
    {
      hide ZfCells.GetCell, DoPrim, ToWord, ToCell;
      var ipOrg := ip;
      var ok, d, n := GetCell(ip);
      if !ok {
        return Threw(OUTSIDE_MEM);
      }
      var code := ToWord(d);
      ip := ToWord(ip + n);
      if code <= PRIM_COUNT {
        r := Primitive(code, arg);
        if r == Fine && inputState != INTERPRET {
          ip := ipOrg;
        }
      } else {
        CellOfWord(ipOrg + n);
        r := PushR(ToCell(ip));
        if r == Fine {
          ip := code;
        }
      }
    }

    /** The run loop, for at most fuel turns. */
    method RunLoop(arg0: input, fuel0: nat) returns (r: Status)
      requires Valid() && inputState == INTERPRET
      modifies this`dsp, this`rsp, this`ip, this`inputState, dict, dstack, rstack
      ensures Valid()
      ensures WordLeaves(OfRun(Run(old(State()), arg0, fuel0)), r, State())
    {
      hide Step;
      var arg, fuel := arg0, fuel0;
      while ip != 0
        invariant Valid() && inputState == INTERPRET
        invariant Run(State(), arg, fuel) == Run(old(State()), arg0, fuel0)
        decreases fuel
      {
        if fuel == 0 {
          return Exhausted;
        }
        r := Turn(arg);
        if r != Fine || inputState != INTERPRET {
          return r;
        }
        arg := None;
        fuel := fuel - 1;
      }
      return Fine;
    }

    method ExecuteAt(c: word, fuel: nat) returns (r: Status)
      requires Valid() && inputState == INTERPRET
      modifies this`dsp, this`rsp, this`ip, this`inputState, dict, dstack, rstack
      ensures Valid()
      ensures WordLeaves(Execute(old(State()), c, fuel), r, State())
    {
      hide Run;
      ip := c;
      rsp := 0;
      r := PushR(0);
      assert State() == old(State()).(ip := c, rs := [0], input := INTERPRET);
      r := RunLoop(None, fuel);
    }

    /** The number parser the host supplies. */
    method ParseHost(s: name) returns (r: Option<cell>)
      ensures r == ParseNumber(s)
    {
      hide StrtolOf;
      var v, end := Strtol(s, 0);
      return if end == |s| then Some(v) else None;
    }

    method CompileOrRun(hit: Hit, fuel: nat) returns (r: Status)
      requires Valid() && inputState == INTERPRET
      modifies this`dsp, this`rsp, this`ip, this`inputState, dict, dstack, rstack
      ensures Valid()
      ensures WordLeaves(HandleFound(old(State()), hit, fuel), r, State())
    {
      hide ZfCells.GetCell, Var, Execute, ZfDictionary.AddCell, Le;
      var ok, flags, n := GetCell(hit.header);
      if !ok {
        return Threw(OUTSIDE_MEM);
      }
      var immediate, prim := flags / 64 % 2 == 1, flags / 32 % 2 == 1;
      var compiling := GetVar(COMPILING);
      var postpone := GetVar(POSTPONE);
      if compiling != 0 && (postpone != 0 || !immediate) {
        if prim {
          var d;
          ok, d, n := GetCell(hit.code);
          if !ok {
            return Threw(OUTSIDE_MEM);
          }
          ok := AddCell(d);
        } else {
          ok := AddCell(ToCell(hit.code));
        }
        if !ok {
          return Threw(OUTSIDE_MEM);
        }
        StoreWord(16, 0);
        return Fine;
      }
      r := ExecuteAt(ToWord(hit.code), fuel);
    }

    method CompileOrPush(s: name) returns (r: Status)
      requires Valid() && inputState == INTERPRET
      modifies this`dsp, dict, dstack
      ensures Valid()
      ensures WordLeaves(HandleNumber(old(State()), s), r, State())
    {
      hide Var, ParseNumber, ZfDictionary.AddCell;
      var v := ParseHost(s);
      if v == None {
        return Threw(NOT_A_WORD);
      }
      var compiling := GetVar(COMPILING);
      if compiling != 0 {
        var ok := AddCell(LIT);
        if ok {
          ok := AddCell(v.value);
        }
        r := if ok then Fine else Threw(OUTSIDE_MEM);
      } else {
        r := Push(v.value);
      }
    }

    method HandleWord(s: name, fuel: nat) returns (r: Status)
      requires Valid() && inputState != PASS_CHAR && Terminated(Dict()) && CString(s)
      modifies this`dsp, this`rsp, this`ip, this`inputState, dict, dstack, rstack
      ensures Valid() && Terminated(Dict())
      ensures WordLeaves(Handle(old(State()), s, fuel), r, State())
    {
      hide Run, ZfEval.FindWord, HandleFound, HandleNumber, Var, LastByte;
      HandleTerminated(State(), s, fuel);
      if inputState == PASS_WORD {
        inputState := INTERPRET;
        r := RunLoop(Some(s), fuel);
        return;
      }
      var found := FindWord(s);
      match found
      case Found(hit) => r := CompileOrRun(hit, fuel);
      case Missing => r := CompileOrPush(s);
      case Unreadable => r := Threw(OUTSIDE_MEM);
      case Lost => r := Exhausted;
    }

    method TakeChar(c: byte, fuel: nat) returns (r: Status)
      requires Valid() && Intact()
      modifies this`len, this`dsp, this`rsp, this`ip, this`inputState, dict, dstack, rstack, buf
      ensures Valid() && Intact()
      ensures CharLeaves(HandleChar(Session(old(State()), old(buf[..len])), c, fuel), r, State(), buf[..len])
    {
      hide Run, Handle, IsSpace, LastByte;
      if inputState == PASS_CHAR {
        RunKeepsLast(State().(input := INTERPRET), Some([c]), fuel);
        inputState := INTERPRET;
        r := RunLoop(Some([c]), fuel);
      } else if c != 0 && !IsSpace(c) {
        if len < 31 {
          buf[len] := c;
          len := len + 1;
          buf[len] := 0;
        }
        r := Fine;
      } else if len > 0 {
        var s := buf[..len];
        len := 0;
        r := HandleWord(s, fuel);
      } else {
        r := Fine;
      }
    }

    /** The loop of zf_eval: the characters of the text up to and including its
        terminator. */
    method TakeText(text: seq<byte>, fuel: nat) returns (r: Status)
      requires Valid() && Intact()
      modifies this`len, this`dsp, this`rsp, this`ip, this`inputState, dict, dstack, rstack, buf
      ensures Valid() && Intact()
      ensures LoopLeaves(Eval(Session(old(State()), old(buf[..len])), text, fuel), r, State(), buf[..len])
    {
      hide HandleChar, Var, SetVar, Intact;
      var i := 0;
      while true
        invariant 0 <= i <= |text| && Valid() && Intact()
        invariant Eval(Session(State(), buf[..len]), text[i..], fuel) ==
                  Eval(Session(old(State()), old(buf[..len])), text, fuel)
        decreases |text| - i
      {
        var c := if i < |text| then text[i] else 0;
        r := TakeChar(c, fuel);
        if r != Fine || c == 0 {
          return;
        }
        i := i + 1;
      }
    }

    /** What zf_eval does after an abort. */
    method Recover()
      requires Valid() && Terminated(Dict()) && inputState == INTERPRET
      modifies this`dsp, this`rsp, dict
      ensures Valid() && Terminated(Dict()) && dsp == 0 && rsp == 0 && Var(Dict(), COMPILING) == 0
      ensures State() == ZfEval.Recover(old(Dict())).(ip := ip)
    {
      hide Var, Le, LastByte;
      SetVarReads(Dict(), COMPILING, 0);
      SetVarKeepsLast(Dict(), COMPILING, 0);
      StoreWord(12, 0);
      rsp := 0;
      dsp := 0;
    }

    /** zf_eval, with recovery from an abort. */
    method Evaluate(text: seq<byte>, fuel: nat) returns (r: Status)
      requires Valid() && Intact()
      modifies this`len, this`dsp, this`rsp, this`ip, this`inputState, dict, dstack, rstack, buf
      ensures Valid() && Intact()
      ensures EvalLeaves(Eval(Session(old(State()), old(buf[..len])), text, fuel), r, State(), buf[..len])
      ensures r.Threw? ==> dsp == 0 && rsp == 0 && Var(Dict(), COMPILING) == 0 && inputState == INTERPRET
    {
      hide Eval, Var, ZfEval.Recover, Terminated;
      r := TakeText(text, fuel);
      if r.Threw? {
        Recover();
      }
    }

    /** zf_init. */
    method Initialise(trace: word)
      requires Valid()
      modifies this`dsp, this`rsp, dict
      ensures Valid() && dsp == 0 && rsp == 0
      ensures Dict() == Init(old(Dict()), trace)
    {
      hide Le;
      StoreWord(0, FIRST_FREE);
      StoreWord(8, trace);
      StoreWord(4, 0);
      dsp := 0;
      rsp := 0;
      StoreWord(12, 0);
    }

    method AddPrimitive(s: name, op: nat, imm: bool) returns (ok: bool)
      requires Valid() && op < PRIM_COUNT
      modifies dict
      ensures Valid()
      ensures forall k :: 0 <= k < PRIM_COUNT && WordName(k) == s && op == k && imm == IsImmediate(k) ==>
                ok == AddWord(old(Dict()), k).Done? && Dict() == AddWord(old(Dict()), k).d
    {
      hide ZfDictionary.Create, ZfDictionary.AddCell, ZfDictionary.MakeImmediate, WordName, IsImmediate;
      ok := Create(s, FLAG_PRIM);
      if ok {
        ok := AddCell(op);
        if ok {
          ok := AddCell(EXIT);
          if ok && imm {
            ok := MakeImmediate();
          }
        }
      }
    }

    method AddUservar(s: name, v: nat) returns (ok: bool)
      requires Valid() && v < 5
      modifies dict
      ensures Valid()
      ensures forall k :: PRIM_COUNT <= k < WORD_COUNT && WordName(k) == s && v == k - PRIM_COUNT ==>
                ok == AddWord(old(Dict()), k).Done? && Dict() == AddWord(old(Dict()), k).d
    {
      hide ZfDictionary.Create, ZfDictionary.AddCell, WordName;
      ok := Create(s, 0);
      if ok {
        ok := AddCell(LIT);
        if ok {
          ok := AddCell(v);
          if ok {
            ok := AddCell(EXIT);
          }
        }
      }
    }

    /** zf_bootstrap: the loops over the primitives and then the user variables. */
    method AddAllWords() returns (ok: bool)
      requires Valid()
      modifies dict
      ensures Valid()
      ensures ok == Bootstrap(old(Dict()), 0).Done? && Dict() == Bootstrap(old(Dict()), 0).d
    {
      hide AddWord, WordName, IsImmediate;
      ok := true;
      var k := 0;
      while k < WORD_COUNT
        invariant 0 <= k <= WORD_COUNT && Valid() && ok
        invariant Bootstrap(Dict(), k) == Bootstrap(old(Dict()), 0)
      {
        if k < PRIM_COUNT {
          ok := AddPrimitive(WordName(k), k, IsImmediate(k));
        } else {
          ok := AddUservar(WordName(k), k - PRIM_COUNT);
        }
        if !ok {
          return;
        }
        k := k + 1;
      }
    }
  }
}
