/** zForth's outer interpreter: looking words up, compiling or executing them,
    splitting text into words, and recovering from aborts (boot/zforth/zforth.c). */
module ZfEval {
  import opened Words
  import opened Numbers
  import opened ZfCells
  import opened ZfDictionary
  import opened ZfMachine

  /** What handling one word leads to. A suspended run is an ordinary state: the
      next word or character goes to it. Astray is a read past the dictionary's end. */
  datatype WordResult =
    | Next(m: machine)
    | Failed(dict: dict, code: Code)
    | Escaped(m: machine, op: nat)
    | Unfinished(m: machine)
    | Astray

  function OfRun(r: RunResult): WordResult {
    match r
    case Halted(m) => Next(m)
    case Suspended(m) => Next(m)
    case RunAborted(d, code) => Failed(d, code)
    case RunForeign(m, op) => Escaped(m, op)
    case OutOfFuel(m) => Unfinished(m)
  }

  function OfAdd(m: machine, r: Result): WordResult {
    match r
    case Done(d) => Next(m.(dict := d))
    case Abort(d) => Failed(d, OUTSIDE_MEM)
  }

  /** The host's number parser: strtol in base 0 over the whole word. */
  function ParseNumber(s: name): Option<cell> {
    var p := StrtolOf(s, 0);
    if p.end == |s| then Some(p.value) else None
  }

  function AddLiteral(d: dict, v: cell): Result {
    match AddCell(d, LIT)
    case Abort(e) => Abort(e)
    case Done(e) => AddCell(e, v)
  }

  /** Runs the code at c with an otherwise empty return stack. */
  function Execute(m: machine, c: word, fuel: nat): WordResult {
    OfRun(Run(m.(ip := c, rs := [0], input := INTERPRET), None, fuel))
  }

  /** A word found in the dictionary: compiled or executed. */
  function HandleFound(m: machine, hit: Hit, fuel: nat): WordResult {
    match GetCell(m.dict, hit.header)
    case Outside => Failed(m.dict, OUTSIDE_MEM)
    case Got(flags, _) =>
      var immediate, prim := flags / 64 % 2 == 1, flags / 32 % 2 == 1;
      if Var(m.dict, COMPILING) != 0 && (Var(m.dict, POSTPONE) != 0 || !immediate) then
        var r :=
          if prim then
            match GetCell(m.dict, hit.code)
            case Outside => Abort(m.dict)
            case Got(op, _) => AddCell(m.dict, op)
          else AddCell(m.dict, ToCell(hit.code));
        match r
        case Abort(d) => Failed(d, OUTSIDE_MEM)
        case Done(d) => Next(m.(dict := SetVar(d, POSTPONE, 0)))
      else Execute(m, ToWord(hit.code), fuel)
  }

  /** A word that is not in the dictionary has to be a number. */
  function HandleNumber(m: machine, s: name): WordResult {
    match ParseNumber(s)
    case None => Failed(m.dict, NOT_A_WORD)
    case Some(v) =>
      if Var(m.dict, COMPILING) != 0 then OfAdd(m, AddLiteral(m.dict, v))
      else
        match Push(m.ds, v)
        case Ok(ds) => Next(m.(ds := ds))
        case Fail(code) => Failed(m.dict, code)
  }

  /** One word of input while the dictionary is well formed; a primitive waiting for
      a word gets it first. */
  function HandleWord(m: machine, s: name, fuel: nat): WordResult
    requires WellFormed(m.dict)
  {
    if m.input == PASS_WORD then OfRun(Run(m.(input := INTERPRET), Some(s), fuel))
    else
      match Lookup(m.dict, s)
      case Some(hit) => HandleFound(m, hit, fuel)
      case None => HandleNumber(m, s)
  }

  // ------------------------------------------------- any dictionary at all

  /** What memcmp makes of a name: equal, a first difference, or a byte past the end of
      the array needed to tell. */
  datatype Comparison = Same | Differs(at: nat) | PastEnd

  /** Byte by byte from the i-th on, stopping at the first difference. */
  function Compare(d: dict, p: nat, s: seq<byte>, i: nat): Comparison
    requires i <= |s|
    decreases |s| - i
  {
    if i == |s| then Same
    else if p + i >= DICT_SIZE then PastEnd
    else if d[p + i] != s[i] then Differs(i)
    else Compare(d, p, s, i + 1)
  }

  lemma {:induction false} CompareIs(d: dict, p: nat, s: seq<byte>, i: nat)
    requires i <= |s| && p + |s| <= DICT_SIZE
    ensures !Compare(d, p, s, i).PastEnd?
    ensures Compare(d, p, s, i).Same? <==> d[p + i..p + |s|] == s[i..]
    decreases |s| - i
  {
    if i < |s| {
      CompareIs(d, p, s, i + 1);
      assert d[p + i..p + |s|] == [d[p + i]] + d[p + i + 1..p + |s|];
      assert s[i..] == [s[i]] + s[i + 1..];
    }
  }

  /** The search loop over arbitrary bytes, for a number of turns: it may abort on a
      header it cannot read, compare past the end of the array, or still be going. */
  datatype Search = Found(hit: Hit) | Missing | Unreadable | Strayed | Lost

  function FindWord(d: dict, s: name, w: nat, turns: nat): Search
    decreases turns
  {
    if w == 0 then Missing
    else if turns == 0 then Lost
    else
      match GetCell(d, w)
      case Outside => Unreadable
      case Got(lenflags, n) =>
        match GetCell(d, w + n)
        case Outside => Unreadable
        case Got(link, k) =>
          var p, len := w + n + k, lenflags % 32;
          if len != |s| then FindWord(d, s, ToWord(link), turns - 1)
          else
            match Compare(d, p, s, 0)
            case Same => Found(Hit(w, p + len))
            case Differs(_) => FindWord(d, s, ToWord(link), turns - 1)
            case PastEnd => Strayed
  }

  /** In a well-formed dictionary the loop ends, aborts nowhere and finds what the
      chain holds. */
  lemma {:induction false} FindWordIsFind(d: dict, s: name, w: nat, lim: nat, turns: nat)
    requires Chain(d, w, lim) && turns >= w
    ensures FindWord(d, s, w, turns) ==
            if Find(d, s, w, lim).Some? then Found(Find(d, s, w, lim).value) else Missing
    decreases w
  {
    hide GetCell;
    if w != 0 {
      OneByteCell(d, w);
      var h := HeaderAt(d, w).value;
      if h.Len() == |s| {
        CompareIs(d, h.nameAt, s, 0);
        assert s[0..] == s;
      }
      hide HeaderAt, Compare;
      FindWordIsFind(d, s, h.link, w, turns - 1);
    }
  }

  /** Any word in any state. */
  function Handle(m: machine, s: name, fuel: nat): WordResult {
    if m.input == PASS_WORD then OfRun(Run(m.(input := INTERPRET), Some(s), fuel))
    else
      match FindWord(m.dict, s, Var(m.dict, LATEST), DICT_SIZE)
      case Found(hit) => HandleFound(m, hit, fuel)
      case Missing => HandleNumber(m, s)
      case Unreadable => Failed(m.dict, OUTSIDE_MEM)
      case Strayed => WordResult.Astray
      case Lost => Unfinished(m)
  }

  lemma HandleIsHandleWord(m: machine, s: name, fuel: nat)
    requires WellFormed(m.dict)
    ensures Handle(m, s, fuel) == HandleWord(m, s, fuel)
  {
    hide Var, HandleFound, HandleNumber, FindWord, Run, Find, HeaderAt;
    FindWordIsFind(m.dict, s, Var(m.dict, LATEST), Var(m.dict, HERE), DICT_SIZE);
  }

  // ---------------------------------------------------------------- text

  /** The tokenizer's collected characters, with the machine. */
  datatype Session = Session(m: machine, buf: seq<byte>)

  datatype CharResult =
    | More(s: Session)
    | Broke(dict: dict, code: Code)
    | Left(m: machine)
    | Astray

  function OfWord(w: WordResult): CharResult {
    match w
    case Next(m) => More(Session(m, []))
    case Failed(d, code) => Broke(d, code)
    case Escaped(m, _) => Left(m)
    case Unfinished(m) => Left(m)
    case Astray => CharResult.Astray
  }

  /** One character: to a primitive waiting for it, into the word buffer, or, when
      it is white space or the terminator, the word buffer to handle_word. */
  function HandleChar(s: Session, c: byte, fuel: nat): CharResult
    requires |s.buf| <= 31
  {
    if s.m.input == PASS_CHAR then
      match OfWord(OfRun(Run(s.m.(input := INTERPRET), Some([c]), fuel)))
      case More(t) => More(t.(buf := s.buf))
      case other => other
    else if c != 0 && !IsSpace(c) then More(if |s.buf| < 31 then s.(buf := s.buf + [c]) else s)
    else if s.buf == [] then More(s)
    else OfWord(Handle(s.m, s.buf, fuel))
  }

  /** What an evaluation returns: OK or an abort code, with the state it leaves. An
      abort empties both stacks and leaves compile mode. */
  datatype Evaluation =
    | Evaluated(s: Session)
    | Recovered(m: machine, code: Code)
    | Gone(m: machine)
    | Astray

  function Recover(d: dict): machine {
    Machine(SetVar(d, COMPILING, 0), [], [], 0, INTERPRET)
  }

  /** zf_eval over the characters left, up to and including the terminator, which is the
      first NUL or what follows the last character. */
  function Eval(s: Session, text: seq<byte>, fuel: nat): Evaluation
    requires |s.buf| <= 31
    decreases |text|
  {
    var c := if text == [] then 0 else text[0];
    match HandleChar(s, c, fuel)
    case Left(m) => Gone(m)
    case Astray => Evaluation.Astray
    case Broke(d, code) => Recovered(Recover(d), code)
    case More(t) =>
      if c == 0 then Evaluated(t)
      else if |t.buf| <= 31 then Eval(t, text[1..], fuel) else Gone(t.m)
  }
}
