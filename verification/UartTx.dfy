/** The buffered transmit path: characters gathered by `putchar`, copied into alternating
    halves of a second buffer and sent from there by the uDMA, while the processor goes on
    (boot/zforth-riscv/libc.c, boot/zforth-riscv/udma.c). */
module UartTx {
  import opened Words

  const WRITE_BUF := 16
  const HALF := 128
  const QUEUE := 2
  const NEWLINE := 10

  /** Where the processor is: between calls, or at one of the actions of `fflush` and
      `uart_write`. */
  datatype Pc = Idle | Wait | Copy(k: nat) | Enqueue | Toggle | Reset

  /** A transfer the uDMA holds, pos bytes of it sent. */
  datatype Transfer = Transfer(addr: nat, size: nat, pos: nat)

  datatype State = State(pc: Pc, writeBuf: seq<byte>, writeCnt: nat, copyout: seq<byte>, which: nat,
                         queue: seq<Transfer>, sent: seq<byte>, given: seq<byte>)

  /** What can happen next: a call by the program, a step of the processor inside a call,
      or a step of the uDMA. */
  datatype Event = Putchar(c: int) | Flush | Cpu | Dma

  const INIT := State(Idle, Zeros(WRITE_BUF), 0, Zeros(2 * HALF), 0, [], [], [])

  /** One program makes the calls: none while it is inside another. */
  predicate Enabled(s: State, e: Event) {
    (e.Putchar? || e.Flush?) ==> s.pc.Idle?
  }

  function AsByte(c: int): byte {
    c % 256
  }

  /** Stores the character if there is room, and flushes a full buffer or a line. */
  function DoPutchar(s: State, c: int): (r: State)
    requires |s.writeBuf| == WRITE_BUF
  {
    var t := if s.writeCnt < WRITE_BUF
             then s.(writeBuf := s.writeBuf[s.writeCnt := AsByte(c)], writeCnt := s.writeCnt + 1,
                     given := s.given + [AsByte(c)])
             else s.(given := s.given + [AsByte(c)]);
    if t.writeCnt == WRITE_BUF || c == NEWLINE then t.(pc := Wait) else t
  }

  /** One step inside `fflush`. */
  function DoCpu(s: State): (r: State)
    requires |s.writeBuf| == WRITE_BUF && |s.copyout| == 2 * HALF && s.which < 2 && s.writeCnt <= WRITE_BUF
  {
    match s.pc
    case Idle => s
    case Wait => if |s.queue| < QUEUE then s.(pc := Copy(0)) else s
    case Copy(k) =>
      if k < s.writeCnt then s.(copyout := s.copyout[s.which * HALF + k := s.writeBuf[k]], pc := Copy(k + 1))
      else s.(pc := Enqueue)
    case Enqueue => s.(queue := s.queue + [Transfer(s.which * HALF, s.writeCnt, 0)], pc := Toggle)
    case Toggle => s.(which := 1 - s.which, pc := Reset)
    case Reset => s.(writeCnt := 0, pc := Idle)
  }

  /** One step of the uDMA: the next byte of the oldest transfer, or its completion. */
  function DoDma(s: State): State {
    if s.queue == [] then s
    else
      var t := s.queue[0];
      if t.pos < t.size && t.addr + t.pos < |s.copyout| then
        s.(sent := s.sent + [s.copyout[t.addr + t.pos]], queue := [t.(pos := t.pos + 1)] + s.queue[1..])
      else s.(queue := s.queue[1..])
  }

  function Step(s: State, e: Event): State
    requires |s.writeBuf| == WRITE_BUF && |s.copyout| == 2 * HALF && s.which < 2 && s.writeCnt <= WRITE_BUF
  {
    match e
    case Putchar(c) => DoPutchar(s, c)
    case Flush => s.(pc := Wait)
    case Cpu => DoCpu(s)
    case Dma => DoDma(s)
  }

  // ------------------------------------------------------------- the invariant

  function Rest(t: Transfer, copyout: seq<byte>): seq<byte> {
    if t.pos <= t.size && t.addr + t.size <= |copyout| then copyout[t.addr + t.pos..t.addr + t.size] else []
  }

  /** The bytes the queue will send. */
  function Pending(queue: seq<Transfer>, copyout: seq<byte>): seq<byte> {
    if queue == [] then [] else Rest(queue[0], copyout) + Pending(queue[1..], copyout)
  }

  /** The characters not yet handed to the uDMA. */
  function Held(s: State): seq<byte> {
    if s.pc.Toggle? || s.pc.Reset? || s.writeCnt > |s.writeBuf| then [] else s.writeBuf[..s.writeCnt]
  }

  predicate TransferOk(t: Transfer) {
    (t.addr == 0 || t.addr == HALF) && t.pos <= t.size <= WRITE_BUF
  }

  /** The half the next transfer will be filled into. */
  function Filling(s: State): nat
    requires s.which < 2
  {
    if s.pc.Toggle? then (1 - s.which) * HALF else s.which * HALF
  }

  ghost predicate Shaped(s: State) {
    |s.writeBuf| == WRITE_BUF && |s.copyout| == 2 * HALF && s.which < 2 &&
    s.writeCnt <= WRITE_BUF && |s.queue| <= QUEUE &&
    (s.pc.Idle? ==> s.writeCnt < WRITE_BUF) && (s.pc.Copy? ==> s.pc.k <= s.writeCnt) &&
    forall i :: 0 <= i < |s.queue| ==> TransferOk(s.queue[i])
  }

  /** The queue's halves alternate and end with the one last filled; while one is being
      filled the queue has only the other. */
  ghost predicate HalvesApart(s: State)
    requires s.which < 2
  {
    (|s.queue| >= 1 ==> s.queue[|s.queue| - 1].addr != Filling(s)) &&
    (|s.queue| == 2 ==> s.queue[0].addr == Filling(s)) &&
    (s.pc.Copy? || s.pc.Enqueue? ==> |s.queue| <= 1)
  }

  ghost predicate CopiedSoFar(s: State)
    requires Shaped(s)
  {
    var n := if s.pc.Copy? then s.pc.k else if s.pc.Enqueue? then s.writeCnt else 0;
    forall k :: 0 <= k < n ==> s.copyout[s.which * HALF + k] == s.writeBuf[k]
  }

  /** Nothing is lost, repeated or reordered on the way. */
  ghost predicate Conserved(s: State) {
    s.sent + Pending(s.queue, s.copyout) + Held(s) == s.given
  }

  ghost predicate Inv(s: State) {
    Shaped(s) && HalvesApart(s) && CopiedSoFar(s) && Conserved(s)
  }

  lemma {:induction false} PendingAppend(queue: seq<Transfer>, t: Transfer, copyout: seq<byte>)
    ensures Pending(queue + [t], copyout) == Pending(queue, copyout) + Rest(t, copyout)
    decreases |queue|
  {
    hide Rest;
    if queue == [] {
      assert queue + [t] == [t];
      assert Pending([t], copyout) == Rest(t, copyout) + Pending([], copyout);
    } else {
      assert (queue + [t])[1..] == queue[1..] + [t];
      PendingAppend(queue[1..], t, copyout);
    }
  }

  /** A store outside every queued transfer's half changes nothing that is pending. */
  lemma {:induction false} PendingFrame(queue: seq<Transfer>, copyout: seq<byte>, half: nat, k: nat, b: byte)
    requires |copyout| == 2 * HALF && (half == 0 || half == HALF) && k < HALF
    requires forall i :: 0 <= i < |queue| ==> TransferOk(queue[i]) && queue[i].addr != half
    ensures Pending(queue, copyout[half + k := b]) == Pending(queue, copyout)
    decreases |queue|
  {
    if queue != [] {
      var t := queue[0];
      assert copyout[half + k := b][t.addr + t.pos..t.addr + t.size] == copyout[t.addr + t.pos..t.addr + t.size];
      PendingFrame(queue[1..], copyout, half, k, b);
    }
  }

  lemma PutcharKeeps(s: State, c: int)
    requires Inv(s) && s.pc.Idle?
    ensures Inv(DoPutchar(s, c))
  {
    hide Pending, AsByte, TransferOk;
    var t := DoPutchar(s, c);
    assert Held(t) == Held(s) + [AsByte(c)];
  }

  lemma CopyKeeps(s: State)
    requires Inv(s) && s.pc.Copy? && s.pc.k < s.writeCnt
    ensures Inv(DoCpu(s))
  {
    hide Pending;
    PendingFrame(s.queue, s.copyout, s.which * HALF, s.pc.k, s.writeBuf[s.pc.k]);
  }

  /** The transfer's bytes in the copy are the characters it stands for. */
  lemma CopyIsHeld(s: State)
    requires Shaped(s) && CopiedSoFar(s) && s.pc.Enqueue?
    ensures Rest(Transfer(s.which * HALF, s.writeCnt, 0), s.copyout) == s.writeBuf[..s.writeCnt]
  {
  }

  lemma EnqueueConserves(s: State)
    requires Shaped(s) && CopiedSoFar(s) && Conserved(s) && s.pc.Enqueue?
    ensures Conserved(DoCpu(s))
  {
    hide Pending, Rest, CopiedSoFar;
    PendingAppend(s.queue, Transfer(s.which * HALF, s.writeCnt, 0), s.copyout);
    CopyIsHeld(s);
  }

  lemma EnqueueKeeps(s: State)
    requires Inv(s) && s.pc.Enqueue?
    ensures Inv(DoCpu(s))
  {
    hide Conserved;
    EnqueueConserves(s);
  }

  lemma CpuKeeps(s: State)
    requires Inv(s)
    ensures Inv(DoCpu(s))
  {
    hide Pending;
    if s.pc.Copy? && s.pc.k < s.writeCnt {
      CopyKeeps(s);
    } else if s.pc.Enqueue? {
      EnqueueKeeps(s);
    } else {
      assert Held(DoCpu(s)) == Held(s);
    }
  }

  lemma PendingHead(u: Transfer, rest: seq<Transfer>, copyout: seq<byte>)
    ensures Pending([u] + rest, copyout) == Rest(u, copyout) + Pending(rest, copyout)
  {
    assert ([u] + rest)[1..] == rest;
  }

  lemma RestNext(t: Transfer, copyout: seq<byte>)
    requires TransferOk(t) && |copyout| == 2 * HALF
    ensures t.pos < t.size ==> Rest(t, copyout) == [copyout[t.addr + t.pos]] + Rest(t.(pos := t.pos + 1), copyout)
    ensures t.pos == t.size ==> Rest(t, copyout) == []
  {
  }

  lemma DmaConserves(s: State)
    requires Shaped(s) && Conserved(s)
    ensures Conserved(DoDma(s))
  {
    hide Rest, Pending, Held;
    if s.queue != [] {
      var t := s.queue[0];
      var u := t.(pos := t.pos + 1);
      RestNext(t, s.copyout);
      assert s.queue == [t] + s.queue[1..];
      PendingHead(t, s.queue[1..], s.copyout);
      PendingHead(u, s.queue[1..], s.copyout);
      HeldByDma(s);
    }
  }

  lemma HeldByDma(s: State)
    ensures Held(DoDma(s)) == Held(s)
  {
  }

  lemma DmaKeeps(s: State)
    requires Inv(s)
    ensures Inv(DoDma(s))
  {
    hide Conserved;
    DmaConserves(s);
  }

  lemma StepKeeps(s: State, e: Event)
    requires Inv(s) && Enabled(s, e)
    ensures Inv(Step(s, e))
  {
    hide Pending, CopiedSoFar;
    match e
    case Putchar(c) => PutcharKeeps(s, c);
    case Flush => FlushKeeps(s);
    case Cpu => CpuKeeps(s);
    case Dma => DmaKeeps(s);
  }

  lemma FlushKeeps(s: State)
    requires Inv(s) && s.pc.Idle?
    ensures Inv(Step(s, Flush))
  {
    hide Pending;
  }

  // ------------------------------------------------------------- runs

  /** Every interleaving of calls, processor steps and uDMA steps; None when a call comes
      in the middle of another. */
  ghost function Run(s: State, events: seq<Event>): Option<State>
    decreases |events|
  {
    if events == [] then Some(s)
    else if !Enabled(s, events[0]) || !Shaped(s) then None
    else Run(Step(s, events[0]), events[1..])
  }

  /** The characters of the calls, in order. */
  function Characters(events: seq<Event>): seq<byte>
    decreases |events|
  {
    if events == [] then []
    else (if events[0].Putchar? then [AsByte(events[0].c)] else []) + Characters(events[1..])
  }

  /** Every call waits for the one before. */
  ghost predicate Sequential(s: State, events: seq<Event>)
    decreases |events|
  {
    events == [] || (Enabled(s, events[0]) && (Shaped(s) ==> Sequential(Step(s, events[0]), events[1..])))
  }

  lemma {:induction false} RunKeeps(s: State, events: seq<Event>)
    requires Inv(s) && Sequential(s, events)
    ensures var r := Run(s, events); r.Some? && Inv(r.value) && r.value.given == s.given + Characters(events)
    decreases |events|
  {
    hide Inv, Step, HalvesApart, Conserved, CopiedSoFar, Characters;
    InvShaped(s);
    CharactersNext(events);
    if events != [] {
      StepKeeps(s, events[0]);
      GivenGrows(s, events[0]);
      RunKeeps(Step(s, events[0]), events[1..]);
    }
  }

  lemma InvShaped(s: State)
    requires Inv(s)
    ensures Shaped(s)
  {
  }

  lemma GivenGrows(s: State, e: Event)
    requires Inv(s)
    ensures Step(s, e).given == s.given + if e.Putchar? then [AsByte(e.c)] else []
  {
  }

  lemma CharactersNext(events: seq<Event>)
    ensures events == [] ==> Characters(events) == []
    ensures events != [] ==>
              Characters(events) == (if events[0].Putchar? then [AsByte(events[0].c)] else []) + Characters(events[1..])
  {
  }

  lemma InitInv()
    ensures Inv(INIT)
  {
  }

  /** In every interleaving the bytes sent, the bytes queued and the characters not yet
      handed over are together exactly what `putchar` was given. */
  lemma NothingLost(events: seq<Event>)
    requires Sequential(INIT, events)
    ensures var r := Run(INIT, events);
            r.Some? && r.value.sent + Pending(r.value.queue, r.value.copyout) + Held(r.value) == Characters(events)
  {
    hide Run, Characters, Pending, Held;
    InitInv();
    RunKeeps(INIT, events);
  }

  /** While a half is being filled no queued transfer reads from it. */
  lemma FillingIsFree(events: seq<Event>)
    requires Sequential(INIT, events)
    ensures var r := Run(INIT, events);
            r.Some? && (r.value.pc.Copy? ==>
              forall i :: 0 <= i < |r.value.queue| ==> r.value.queue[i].addr != r.value.which * HALF)
  {
    hide Run, Characters, Pending, Held;
    InitInv();
    RunKeeps(INIT, events);
  }

  // ------------------------------------------------------------- everything gets sent

  function QueueWork(queue: seq<Transfer>): int {
    if queue == [] then 0 else queue[0].size - queue[0].pos + 1 + QueueWork(queue[1..])
  }

  /** What is left to do before the transmitter comes to rest. */
  function Work(s: State): int {
    QueueWork(s.queue) +
    match s.pc
    case Idle => 0
    case Wait => 2 * s.writeCnt + 6
    case Copy(k) => 2 * s.writeCnt - k + 5
    case Enqueue => s.writeCnt + 4
    case Toggle => 2
    case Reset => 1
  }

  lemma {:induction false} QueueWorkAppend(queue: seq<Transfer>, t: Transfer)
    ensures QueueWork(queue + [t]) == QueueWork(queue) + t.size - t.pos + 1
    decreases |queue|
  {
    if queue == [] {
      assert queue + [t] == [t];
    } else {
      assert (queue + [t])[1..] == queue[1..] + [t];
      QueueWorkAppend(queue[1..], t);
    }
  }

  lemma {:induction false} WorkLeft(queue: seq<Transfer>)
    requires forall i :: 0 <= i < |queue| ==> TransferOk(queue[i])
    ensures QueueWork(queue) >= 0
  {
    if queue != [] {
      WorkLeft(queue[1..]);
    }
  }

  /** Every step inside a call and every uDMA step either waits or brings rest closer. */
  lemma StepWorks(s: State, e: Event)
    requires Inv(s) && (e.Cpu? || e.Dma?)
    ensures Work(s) >= 0 && (Step(s, e) == s || Work(Step(s, e)) < Work(s))
  {
    hide Conserved, CopiedSoFar, HalvesApart;
    WorkLeft(s.queue);
    if e.Cpu? {
      QueueWorkAppend(s.queue, Transfer(s.which * HALF, s.writeCnt, 0));
    } else if s.queue != [] {
      var t := s.queue[0];
      assert ([t.(pos := t.pos + 1)] + s.queue[1..])[1..] == s.queue[1..];
    }
  }

  /** The transmitter never gets stuck: when neither side can move, no call is open, the
      queue is empty, and only a line not yet flushed remains unsent. */
  lemma RestMeansSent(s: State)
    requires Inv(s) && DoCpu(s) == s && DoDma(s) == s
    ensures s.pc.Idle? && s.queue == [] && s.sent + s.writeBuf[..s.writeCnt] == s.given
  {
    hide CopiedSoFar, HalvesApart, Rest;
    CpuWaits(s);
    DmaWaits(s);
  }

  lemma CpuWaits(s: State)
    requires Shaped(s)
    ensures DoCpu(s) == s <==> s.pc.Idle? || (s.pc.Wait? && |s.queue| == QUEUE)
  {
    var t := DoCpu(s);
    assert t.pc == s.pc <==> s.pc.Idle? || (s.pc.Wait? && |s.queue| == QUEUE);
  }

  lemma DmaWaits(s: State)
    ensures DoDma(s) == s <==> s.queue == []
  {
    assert s.queue == [] || |DoDma(s).queue| < |s.queue| || |DoDma(s).sent| > |s.sent|;
  }

  // ------------------------------------------------------------- lines get sent

  /** Neither side can move. */
  ghost predicate AtRest(s: State) {
    Shaped(s) && DoCpu(s) == s && DoDma(s) == s
  }

  /** The characters as `putchar` is given them, before each is stored as a byte. */
  function Arguments(events: seq<Event>): seq<int>
    decreases |events|
  {
    if events == [] then []
    else (if events[0].Putchar? then [events[0].c] else []) + Arguments(events[1..])
  }

  lemma {:induction false} ArgumentsStored(events: seq<Event>)
    ensures |Arguments(events)| == |Characters(events)|
    ensures forall i :: 0 <= i < |Arguments(events)| ==> Characters(events)[i] == Arguments(events)[i] % 256
    decreases |events|
  {
    if events != [] {
      ArgumentsStored(events[1..]);
    }
  }

  /** Between calls, none of the characters waiting in the buffer was given as a newline. */
  ghost predicate NoLineWaits(s: State, args: seq<int>) {
    |args| == |s.given| && s.writeCnt <= |args| &&
    (s.pc.Idle? ==> forall i :: |args| - s.writeCnt <= i < |args| ==> args[i] != 10)
  }

  lemma StepKeepsLines(s: State, e: Event, args: seq<int>)
    requires Shaped(s) && NoLineWaits(s, args) && Enabled(s, e)
    ensures NoLineWaits(Step(s, e), args + if e.Putchar? then [e.c] else [])
  {
    hide AsByte, TransferOk;
  }

  lemma {:induction false} RunKeepsLines(s: State, events: seq<Event>, args: seq<int>)
    requires Inv(s) && Sequential(s, events) && NoLineWaits(s, args)
    ensures var r := Run(s, events); r.Some? && NoLineWaits(r.value, args + Arguments(events))
    decreases |events|
  {
    hide Inv, Step, NoLineWaits, Enabled;
    InvShaped(s);
    if events == [] {
      assert args + [] == args;
    } else {
      var e := events[0];
      var more := if e.Putchar? then [e.c] else [];
      StepKeeps(s, e);
      StepKeepsLines(s, e, args);
      RunKeepsLines(Step(s, e), events[1..], args + more);
      assert args + more + Arguments(events[1..]) == args + Arguments(events);
    }
  }

  /** Whatever the interleaving: when neither side can move any more, what is still unsent
      is fewer than 16 characters, none of them given as a newline. */
  lemma LinesAreSent(events: seq<Event>)
    requires Sequential(INIT, events)
    ensures var r := Run(INIT, events);
            r.Some? && (AtRest(r.value) ==>
              r.value.sent <= Characters(events) && |Characters(events)| == |Arguments(events)| &&
              |Arguments(events)| - |r.value.sent| < 16 &&
              10 !in Arguments(events)[|r.value.sent|..])
  {
    hide Run, Characters, Arguments, Inv, DoCpu, DoDma;
    InitInv();
    RunKeeps(INIT, events);
    ArgumentsStored(events);
    RunKeepsLines(INIT, events, []);
    assert [] + Arguments(events) == Arguments(events);
    var s := Run(INIT, events).value;
    InvShaped(s);
    if AtRest(s) {
      RestMeansSent(s);
      assert Characters(events) == s.sent + s.writeBuf[..s.writeCnt];
    }
  }

  /** The byte 10 waits exactly when some unsent character was stored as 10 without being
      given as 10. */
  lemma LineWaitsIff(events: seq<Event>)
    requires Sequential(INIT, events)
    ensures var r := Run(INIT, events);
            r.Some? && (AtRest(r.value) ==>
              |r.value.sent| <= |Characters(events)| == |Arguments(events)| &&
              (10 in Characters(events)[|r.value.sent|..] <==>
               exists i :: |r.value.sent| <= i < |Arguments(events)| &&
                           Arguments(events)[i] != 10 && Arguments(events)[i] % 256 == 10))
  {
    hide Run, Characters, Arguments, Inv, DoCpu, DoDma, AtRest;
    LinesAreSent(events);
    ArgumentsStored(events);
    var s := Run(INIT, events).value;
    if AtRest(s) {
      var cs, args, n := Characters(events), Arguments(events), |s.sent|;
      if 10 in cs[n..] {
        var k :| 0 <= k < |cs[n..]| && cs[n..][k] == 10;
        assert args[n..][k] == args[n + k] && cs[n + k] == 10;
        assert args[n + k] != 10 && args[n + k] % 256 == 10;
      }
      if i :| n <= i < |args| && args[i] != 10 && args[i] % 256 == 10 {
        assert cs[n..][i - n] == 10;
      }
    }
  }

  /** For instance 266, stored as 10 although the test for a line sees no newline. */
  lemma DisguisedLineWaits()
    ensures var s := Step(INIT, Putchar(266));
            AtRest(s) && s.given == [10] && s.sent == []
  {
  }

  /** Calls with the bytes cs give just these. */
  lemma {:induction false} CharactersAre(cs: seq<byte>)
    ensures Characters(seq(|cs|, i requires 0 <= i < |cs| => Putchar(cs[i]))) == cs
  {
    var events := seq(|cs|, i requires 0 <= i < |cs| => Putchar(cs[i]));
    if cs != [] {
      assert events[1..] == seq(|cs[1..]|, i requires 0 <= i < |cs[1..]| => Putchar(cs[1..][i]));
      CharactersAre(cs[1..]);
    }
  }

  /** A call that sends everything: a newline, or `fflush`. */
  predicate Sends(e: Event) {
    e == Putchar(10) || e.Flush?
  }

  predicate IsCall(e: Event) {
    e.Putchar? || e.Flush?
  }

  /** Since the last such call: once the processor is done with it the buffer is empty. */
  ghost predicate Emptying(s: State) {
    s.pc.Idle? ==> s.writeCnt == 0
  }

  lemma SendsEmpties(s: State, e: Event)
    requires Inv(s) && Enabled(s, e) && Sends(e)
    ensures Emptying(Step(s, e))
  {
    hide CopiedSoFar, HalvesApart, Conserved;
  }

  lemma {:induction false} StaysEmptying(s: State, events: seq<Event>)
    requires Inv(s) && Emptying(s) && forall i :: 0 <= i < |events| ==> !IsCall(events[i])
    ensures Sequential(s, events)
    ensures var r := Run(s, events); r.Some? && Emptying(r.value)
    decreases |events|
  {
    hide Inv, CopiedSoFar, HalvesApart, Conserved;
    InvShaped(s);
    if events != [] {
      assert !IsCall(events[0]);
      StepKeeps(s, events[0]);
      StaysEmptying(Step(s, events[0]), events[1..]);
    }
  }

  lemma {:induction false} RunSplit(s: State, a: seq<Event>, b: seq<Event>)
    requires Inv(s) && Sequential(s, a + b)
    ensures Sequential(s, a) && Run(s, a).Some? && Inv(Run(s, a).value)
    ensures Sequential(Run(s, a).value, b) && Run(s, a + b) == Run(Run(s, a).value, b)
    decreases |a|
  {
    hide Inv, Step;
    InvShaped(s);
    if a == [] {
      assert a + b == b;
    } else {
      assert (a + b)[0] == a[0] && (a + b)[1..] == a[1..] + b;
      StepKeeps(s, a[0]);
      RunSplit(Step(s, a[0]), a[1..], b);
    }
  }

  /** If the last call was for a newline, or `fflush`, and neither side can move any more,
      everything given has been sent. */
  lemma FlushedIsSent(before: seq<Event>, e: Event, later: seq<Event>)
    requires Sequential(INIT, before + ([e] + later)) && Sends(e)
    requires forall i :: 0 <= i < |later| ==> !IsCall(later[i])
    ensures var r := Run(INIT, before + ([e] + later));
            r.Some? && (AtRest(r.value) ==>
              r.value.sent == Characters(before + ([e] + later)))
  {
    hide Run, Characters, Inv, DoCpu, DoDma, Step, Sends, Sequential;
    InitInv();
    RunKeeps(INIT, before + ([e] + later));
    RunSplit(INIT, before, [e] + later);
    var s := Run(INIT, before).value;
    FirstStep(s, e, later);
    SendsEmpties(s, e);
    StepKeeps(s, e);
    StaysEmptying(Step(s, e), later);
    var t := Run(INIT, before + ([e] + later)).value;
    if AtRest(t) {
      RestMeansSent(t);
      assert t.sent + t.writeBuf[..0] == t.sent;
      assert INIT.given + Characters(before + ([e] + later)) == Characters(before + ([e] + later));
    }
  }

  lemma FirstStep(s: State, e: Event, later: seq<Event>)
    requires Inv(s) && Sequential(s, [e] + later)
    ensures Enabled(s, e) && Shaped(s) && Run(s, [e] + later) == Run(Step(s, e), later)
  {
    hide Step, HalvesApart, CopiedSoFar, Conserved;
    assert ([e] + later)[1..] == later;
  }

  /** What the uDMA is given: at most two transfers at a time, each of at most 16 bytes from
      the start of one half of a copy of 256. */
  lemma TransfersFit(events: seq<Event>)
    requires Sequential(INIT, events)
    ensures var r := Run(INIT, events);
            r.Some? && |r.value.copyout| == 256 && |r.value.queue| <= 2 &&
            forall i :: 0 <= i < |r.value.queue| ==>
              (r.value.queue[i].addr == 0 || r.value.queue[i].addr == 128) && r.value.queue[i].size <= 16
  {
    hide Run, Characters, HalvesApart, CopiedSoFar, Conserved;
    InitInv();
    RunKeeps(INIT, events);
  }

  // ------------------------------------------------------------- steps are bounded

  /** How many of the steps change anything. */
  ghost function Moves(s: State, events: seq<Event>): nat
    decreases |events|
  {
    if events == [] || !Shaped(s) then 0
    else (if Step(s, events[0]) == s then 0 else 1) + Moves(Step(s, events[0]), events[1..])
  }

  /** Between calls only so many steps can change anything, in any order. */
  lemma {:induction false} MovesBounded(s: State, events: seq<Event>)
    requires Inv(s) && forall i :: 0 <= i < |events| ==> events[i].Cpu? || events[i].Dma?
    ensures Moves(s, events) <= Work(s)
    decreases |events|
  {
    hide Inv, Step, Work, CopiedSoFar, HalvesApart, Conserved;
    InvShaped(s);
    StepWorks(s, Cpu);
    if events != [] {
      StepWorks(s, events[0]);
      StepKeeps(s, events[0]);
      MovesBounded(Step(s, events[0]), events[1..]);
    }
  }

  // ------------------------------------------------------------- the buffers in place

  /** The two buffers, the processor's position and the uDMA's queue, each step changing
      them in place. */
  class Transmitter {
    var pc: Pc
    const writeBuf: array<byte>
    var writeCnt: nat
    const copyoutBuf: array<byte>
    var whichBuf: nat
    var queue: seq<Transfer>
    var sent: seq<byte>
    ghost var given: seq<byte>

    constructor ()
      ensures Valid() && Current() == INIT && fresh(writeBuf) && fresh(copyoutBuf)
    {
      pc, writeCnt, whichBuf, queue, sent, given := Idle, 0, 0, [], [], [];
      writeBuf := new byte[WRITE_BUF](i => 0);
      copyoutBuf := new byte[2 * HALF](i => 0);
      new;
      assert writeBuf[..] == Zeros(WRITE_BUF) && copyoutBuf[..] == Zeros(2 * HALF);
      InitInv();
    }

    ghost function Current(): State
      reads this, writeBuf, copyoutBuf
    {
      State(pc, writeBuf[..], writeCnt, copyoutBuf[..], whichBuf, queue, sent, given)
    }

    ghost predicate Valid()
      reads this, writeBuf, copyoutBuf
    {
      writeBuf != copyoutBuf && Inv(Current())
    }

    /** `putchar`, up to its call of `fflush`. */
    method Putchar(c: int)
      requires Valid() && pc.Idle?
      modifies this, writeBuf
      ensures Valid() && Current() == DoPutchar(old(Current()), c)
    {
      hide Inv, AsByte;
      PutcharKeeps(Current(), c);
      InvShaped(Current());
      if writeCnt < writeBuf.Length {
        writeBuf[writeCnt] := AsByte(c);
        writeCnt := writeCnt + 1;
      }
      given := given + [AsByte(c)];
      if writeCnt == writeBuf.Length || c == NEWLINE {
        pc := Wait;
      }
    }

    /** `fflush`, up to its wait for the queue. */
    method Flush()
      requires Valid() && pc.Idle?
      modifies this
      ensures Valid() && Current() == Step(old(Current()), Event.Flush)
    {
      FlushKeeps(Current());
      pc := Wait;
    }

    /** One step of `uart_wait_tx_done`, `memcpy`, `plp_udma_enqueue` or what follows. */
    method CpuStep()
      requires Valid()
      modifies this, copyoutBuf
      ensures Valid() && Current() == DoCpu(old(Current()))
    {
      hide Inv;
      CpuKeeps(Current());
      InvShaped(Current());
      match pc
      case Idle =>
      case Wait =>
        if |queue| < QUEUE {
          pc := Copy(0);
        }
      case Copy(k) =>
        if k < writeCnt {
          copyoutBuf[whichBuf * HALF + k] := writeBuf[k];
          pc := Copy(k + 1);
        } else {
          pc := Enqueue;
        }
      case Enqueue =>
        queue := queue + [Transfer(whichBuf * HALF, writeCnt, 0)];
        pc := Toggle;
      case Toggle =>
        whichBuf := 1 - whichBuf;
        pc := Reset;
      case Reset =>
        writeCnt := 0;
        pc := Idle;
    }

    /** One step of the uDMA. */
    method DmaStep()
      requires Valid()
      modifies this
      ensures Valid() && Current() == DoDma(old(Current()))
    {
      hide Inv;
      DmaKeeps(Current());
      InvShaped(Current());
      if queue != [] {
        var t := queue[0];
        if t.pos < t.size {
          sent := sent + [copyoutBuf[t.addr + t.pos]];
          queue := [t.(pos := t.pos + 1)] + queue[1..];
        } else {
          queue := queue[1..];
        }
      }
    }
  }
}
