/** The testbench's oversampling UART receiver in its 8n1 setting, and the bit times it
    can follow (tb/tb_sw_axiboot.cpp). */
module UartRx {
  import opened Words

  const TICKS_PER_BAUD := 868
  const BITS := 8
  const PARITY := 0
  const STOP := 1

  /** Ticks from the one that sees the start bit to the one that takes the last sample. */
  const FRAME_TICKS := 8247

  /** `uart_state` and what has been printed. */
  datatype State = State(idle: bool, rxData: word, rxCount: nat, baudcount: int, out: seq<byte>)

  /** `uart_tick`. */
  function Ticked(s: State, rx: bool): State {
    if s.idle then
      if !rx then s.(idle := false, baudcount := TICKS_PER_BAUD + TICKS_PER_BAUD / 2 - 1, rxData := 0, rxCount := 0)
      else s
    else if s.baudcount <= 0 then Sample(s, rx)
    else s.(baudcount := s.baudcount - 1)
  }

  function Shifted(data: word, rx: bool): word {
    (if rx then 0x8000_0000 else 0) + data / 2
  }

  function Sample(s: State, rx: bool): State {
    var data := Shifted(s.rxData, rx);
    var t := s.(rxData := data, rxCount := s.rxCount + 1, baudcount := TICKS_PER_BAUD - 1);
    if s.rxCount + 1 >= BITS + PARITY + STOP then t.(idle := true, out := s.out + [Received(data)]) else t
  }

  /** The data bits, below the stop bit at the top of the register. */
  function Received(data: word): byte {
    data / 0x80_0000 % 256
  }

  function Run(s: State, line: seq<bool>): State
    decreases |line|
  {
    if line == [] then s else Run(Ticked(s, line[0]), line[1..])
  }

  class Uart {
    var idle: bool
    var rxData: word
    var rxCount: nat
    var baudcount: int
    const bits: nat
    const parity: nat
    const stop: nat
    var out: seq<byte>

    constructor ()
      ensures bits == BITS && parity == PARITY && stop == STOP
      ensures Current() == State(true, 0, 0, 0, [])
    {
      idle, rxData, rxCount, baudcount, out := true, 0, 0, 0, [];
      bits, parity, stop := 8, 0, 1;
    }

    function Current(): State
      reads this
    {
      State(idle, rxData, rxCount, baudcount, out)
    }

    method Tick(rx: bool)
      requires bits == BITS && parity == PARITY && stop == STOP
      modifies this
      ensures Current() == Ticked(old(Current()), rx)
    {
      if idle {
        if !rx {
          idle := false;
          baudcount := TICKS_PER_BAUD + TICKS_PER_BAUD / 2 - 1;
          rxData := 0;
          rxCount := 0;
        }
      } else if baudcount <= 0 {
        rxData := (if rx then 0x8000_0000 else 0) + rxData / 2;
        rxCount := rxCount + 1;
        if rxCount >= bits + parity + stop {
          idle := true;
          out := out + [rxData / 0x80_0000 % 256];
        }
        baudcount := TICKS_PER_BAUD - 1;
      } else {
        baudcount := baudcount - 1;
      }
    }

    /** One tick for every sample of the line. */
    method Listen(line: seq<bool>)
      requires bits == BITS && parity == PARITY && stop == STOP
      modifies this
      ensures Current() == Run(old(Current()), line)
    {
      hide Ticked;
      var k := 0;
      assert line[0..] == line;
      while k < |line|
        invariant 0 <= k <= |line| && Run(Current(), line[k..]) == Run(old(Current()), line)
      {
        assert line[k..][1..] == line[k + 1..];
        Tick(line[k]);
        k := k + 1;
      }
    }
  }

  // ------------------------------------------------------------- the line

  /** A byte sent at one bit time after some idle line. */
  datatype Frame = Frame(gap: nat, bitTime: nat, data: byte)

  /** Data bit k, the least significant first. */
  function DataBit(b: byte, k: nat): bool
    requires k < 8
  {
    if k == 0 then b % 2 == 1 else DataBit(b / 2, k - 1)
  }

  /** The line t ticks into a frame: start bit, eight data bits, stop bit. */
  function Level(b: byte, B: nat, t: nat): bool {
    if t < B then false
    else if t < 2 * B then DataBit(b, 0)
    else if t < 3 * B then DataBit(b, 1)
    else if t < 4 * B then DataBit(b, 2)
    else if t < 5 * B then DataBit(b, 3)
    else if t < 6 * B then DataBit(b, 4)
    else if t < 7 * B then DataBit(b, 5)
    else if t < 8 * B then DataBit(b, 6)
    else if t < 9 * B then DataBit(b, 7)
    else true
  }

  function FrameLine(b: byte, B: nat): (line: seq<bool>)
    ensures |line| == 10 * B
  {
    seq(10 * B, t requires 0 <= t => Level(b, B, t))
  }

  function Ones(n: nat): (line: seq<bool>)
    ensures |line| == n
  {
    seq(n, _ => true)
  }

  function Line(frames: seq<Frame>): seq<bool>
    decreases |frames|
  {
    if frames == [] then []
    else Ones(frames[0].gap) + FrameLine(frames[0].data, frames[0].bitTime) + Line(frames[1..])
  }

  function Bytes(frames: seq<Frame>): (bs: seq<byte>)
    ensures |bs| == |frames|
  {
    seq(|frames|, i requires 0 <= i < |frames| => frames[i].data)
  }

  // ------------------------------------------------------------- running

  lemma {:induction false} RunConcat(s: State, a: seq<bool>, b: seq<bool>)
    ensures Run(s, a + b) == Run(Run(s, a), b)
    decreases |a|
  {
    hide Ticked;
    if a == [] {
      assert a + b == b;
    } else {
      assert (a + b)[1..] == a[1..] + b;
      RunConcat(Ticked(s, a[0]), a[1..], b);
    }
  }

  /** An idle receiver on an idle line does nothing. */
  lemma {:induction false} IdleStays(s: State, line: seq<bool>)
    requires s.idle && forall i :: 0 <= i < |line| ==> line[i]
    ensures Run(s, line) == s
    decreases |line|
  {
    if line != [] {
      IdleStays(s, line[1..]);
    }
  }

  /** The next sample comes when the counter has run down, whatever the line does. */
  lemma {:induction false} NextSample(s: State, line: seq<bool>, i: nat)
    requires !s.idle && s.baudcount >= 0 && i + s.baudcount < |line|
    ensures Run(s, line[i..]) == Run(Sample(s.(baudcount := 0), line[i + s.baudcount]), line[i + s.baudcount + 1..])
    decreases s.baudcount
  {
    hide Sample;
    assert line[i..][0] == line[i] && line[i..][1..] == line[i + 1..];
    if s.baudcount > 0 {
      NextSample(s.(baudcount := s.baudcount - 1), line, i + 1);
    }
  }

  // ------------------------------------------------------------- one frame

  function Weight(b: bool): (w: nat)
    ensures w <= 1
  {
    if b then 1 else 0
  }

  /** Four bits, the least significant first. */
  function Nibble(b0: bool, b1: bool, b2: bool, b3: bool): (v: nat)
    ensures v < 16
  {
    Weight(b0) + 2 * Weight(b1) + 4 * Weight(b2) + 8 * Weight(b3)
  }

  lemma Halves(x: byte)
    ensures x == Weight(DataBit(x, 0)) + 2 * (x / 2)
  {
  }

  lemma FourBits(x: byte)
    ensures x == Nibble(DataBit(x, 0), DataBit(x / 2, 0), DataBit(x / 2 / 2, 0), DataBit(x / 2 / 2 / 2, 0)) +
                 16 * (x / 2 / 2 / 2 / 2)
  {
    hide Weight, DataBit;
    Halves(x);
    Halves(x / 2);
    Halves(x / 2 / 2);
    Halves(x / 2 / 2 / 2);
  }

  lemma BitsMakeByte(b: byte)
    ensures b == Nibble(DataBit(b, 0), DataBit(b, 1), DataBit(b, 2), DataBit(b, 3))
               + 16 * Nibble(DataBit(b, 4), DataBit(b, 5), DataBit(b, 6), DataBit(b, 7))
  {
    hide Nibble, DataBit;
    DeepBits(b);
    FourBits(b);
    FourBits(b / 2 / 2 / 2 / 2);
  }

  lemma DeepBits(b: byte)
    ensures var x4 := b / 2 / 2 / 2 / 2;
            DataBit(b, 1) == DataBit(b / 2, 0) && DataBit(b, 2) == DataBit(b / 2 / 2, 0) &&
            DataBit(b, 3) == DataBit(b / 2 / 2 / 2, 0) && DataBit(b, 4) == DataBit(x4, 0) &&
            DataBit(b, 5) == DataBit(x4 / 2, 0) && DataBit(b, 6) == DataBit(x4 / 2 / 2, 0) &&
            DataBit(b, 7) == DataBit(x4 / 2 / 2 / 2, 0) && x4 / 2 / 2 / 2 / 2 == 0
  {
    var x4 := b / 2 / 2 / 2 / 2;
    assert DataBit(b, 4) == DataBit(b / 2, 3) == DataBit(b / 2 / 2, 2);
    assert DataBit(b, 5) == DataBit(b / 2, 4) == DataBit(b / 2 / 2, 3) == DataBit(b / 2 / 2 / 2, 2) == DataBit(x4, 1);
    assert DataBit(b, 6) == DataBit(b / 2, 5) == DataBit(b / 2 / 2, 4) == DataBit(b / 2 / 2 / 2, 3) == DataBit(x4, 2);
    assert DataBit(b, 7) == DataBit(b / 2, 6) == DataBit(b / 2 / 2, 5) == DataBit(b / 2 / 2 / 2, 4) == DataBit(x4, 3);
  }

  lemma ShiftEven(data: word, half: nat, b: bool)
    requires data == 2 * half
    ensures Shifted(data, b) == 0x8000_0000 * Weight(b) + half
  {
  }

  lemma FourShifts(data: word, q: nat, b0: bool, b1: bool, b2: bool, b3: bool)
    requires data == 16 * q
    ensures Shifted(Shifted(Shifted(Shifted(data, b0), b1), b2), b3) == 0x1000_0000 * Nibble(b0, b1, b2, b3) + q
  {
    hide Shifted, Weight;
    var w0, w1, w2 := Weight(b0), Weight(b1), Weight(b2);
    ShiftEven(data, 8 * q, b0);
    var d0 := Shifted(data, b0);
    ShiftEven(d0, 0x4000_0000 * w0 + 4 * q, b1);
    var d1 := Shifted(d0, b1);
    ShiftEven(d1, 0x4000_0000 * w1 + 0x2000_0000 * w0 + 2 * q, b2);
    var d2 := Shifted(d1, b2);
    ShiftEven(d2, 0x4000_0000 * w2 + 0x2000_0000 * w1 + 0x1000_0000 * w0 + q, b3);
  }

  /** The register after nine samples. */
  function Nine(b0: bool, b1: bool, b2: bool, b3: bool, b4: bool, b5: bool, b6: bool, b7: bool, b8: bool): word {
    var low := Shifted(Shifted(Shifted(Shifted(0, b0), b1), b2), b3);
    Shifted(Shifted(Shifted(Shifted(Shifted(low, b4), b5), b6), b7), b8)
  }

  /** Nine samples in: eight of a byte's bits below any ninth. */
  lemma NineSamples(b0: bool, b1: bool, b2: bool, b3: bool, b4: bool, b5: bool, b6: bool, b7: bool, b8: bool)
    ensures Received(Nine(b0, b1, b2, b3, b4, b5, b6, b7, b8)) == Nibble(b0, b1, b2, b3) + 16 * Nibble(b4, b5, b6, b7)
  {
    hide Shifted, Nibble, Received;
    var low, high := Nibble(b0, b1, b2, b3), Nibble(b4, b5, b6, b7);
    FourShifts(0, 0, b0, b1, b2, b3);
    var d3 := Shifted(Shifted(Shifted(Shifted(0, b0), b1), b2), b3);
    FourShifts(d3, 0x100_0000 * low, b4, b5, b6, b7);
    var d7 := Shifted(Shifted(Shifted(Shifted(d3, b4), b5), b6), b7);
    ShiftEven(d7, 0x800_0000 * high + 0x80_0000 * low, b8);
    TopBits(Shifted(d7, b8), Weight(b8), low + 16 * high);
  }

  lemma TopBits(data: word, stop: nat, value: nat)
    requires value < 256 && data == 0x8000_0000 * stop + 0x80_0000 * value
    ensures Received(data) == value
  {
    assert data == 0x80_0000 * (256 * stop + value);
  }

  // ------------------------------------------------------------- the frame as received

  /** The receiver after c samples that make up data. */
  function Receiving(c: nat, data: word, out: seq<byte>): State {
    State(false, data, c, TICKS_PER_BAUD - 1, out)
  }

  /** One more sample, TICKS_PER_BAUD later. */
  lemma OneMore(line: seq<bool>, i: nat, c: nat, data: word, out: seq<byte>)
    requires c < 8 && i + 868 <= |line|
    ensures Run(Receiving(c, data, out), line[i..]) ==
            Run(Receiving(c + 1, Shifted(data, line[i + 867]), out), line[i + 868..])
  {
    hide Shifted;
    NextSample(Receiving(c, data, out), line, i);
  }

  /** The receiver when it has taken the last sample. */
  function AfterFrame(data: word, out: seq<byte>): State {
    State(true, data, 9, TICKS_PER_BAUD - 1, out + [Received(data)])
  }

  /** The register after the samples of a frame that starts where the line does. */
  function Samples(line: seq<bool>): word
    requires |line| >= FRAME_TICKS
  {
    Nine(line[1302], line[2170], line[3038], line[3906], line[4774], line[5642], line[6510], line[7378], line[8246])
  }

  /** The last one ends the frame. */
  lemma LastOne(line: seq<bool>, i: nat, data: word, out: seq<byte>)
    requires i + 868 <= |line|
    ensures var d := Shifted(data, line[i + 867]);
            Run(Receiving(8, data, out), line[i..]) == Run(AfterFrame(d, out), line[i + 868..])
  {
    hide Shifted, Received;
    NextSample(Receiving(8, data, out), line, i);
  }

  lemma FirstOne(s: State, line: seq<bool>)
    requires s.idle && |line| >= 1303 && !line[0]
    ensures Run(s, line) == Run(Receiving(1, Shifted(0, line[1302]), s.out), line[1303..])
  {
    hide Shifted;
    NextSample(Ticked(s, line[0]), line, 1);
  }

  /** Where the receiver samples a line that starts with a start bit. */
  lemma FrameReceived(s: State, line: seq<bool>)
    requires s.idle && |line| >= FRAME_TICKS && !line[0]
    ensures Run(s, line) == Run(AfterFrame(Samples(line), s.out), line[FRAME_TICKS..])
  {
    hide Shifted, Received, Ticked, Run, Receiving;
    FirstOne(s, line);
    var d1 := Shifted(0, line[1302]);
    var d2 := Shifted(d1, line[2170]);
    var d3 := Shifted(d2, line[3038]);
    var d4 := Shifted(d3, line[3906]);
    var d5 := Shifted(d4, line[4774]);
    var d6 := Shifted(d5, line[5642]);
    var d7 := Shifted(d6, line[6510]);
    var d8 := Shifted(d7, line[7378]);
    OneMore(line, 1303, 1, d1, s.out);
    OneMore(line, 2171, 2, d2, s.out);
    OneMore(line, 3039, 3, d3, s.out);
    OneMore(line, 3907, 4, d4, s.out);
    OneMore(line, 4775, 5, d5, s.out);
    OneMore(line, 5643, 6, d6, s.out);
    OneMore(line, 6511, 7, d7, s.out);
    LastOne(line, 7379, d8, s.out);
  }

  /** A frame at a bit time within the bound: its byte is emitted, and the receiver is
      idle again before the frame ends. */
  lemma FrameDecoded(s: State, b: byte, B: nat)
    requires s.idle && 825 <= B <= 916
    ensures var r := Run(s, FrameLine(b, B)); r.idle && r.out == s.out + [b]
  {
    hide Shifted, Received, Run, DataBit, Level, Nibble;
    var line := FrameLine(b, B);
    SampledLevels(b, B);
    FrameReceived(s, line);
    NineSamples(DataBit(b, 0), DataBit(b, 1), DataBit(b, 2), DataBit(b, 3),
                DataBit(b, 4), DataBit(b, 5), DataBit(b, 6), DataBit(b, 7), true);
    BitsMakeByte(b);
    var tail := line[FRAME_TICKS..];
    forall i | 0 <= i < |tail| ensures tail[i] {
      assert tail[i] == Level(b, B, FRAME_TICKS + i);
    }
    IdleStays(AfterFrame(Samples(line), s.out), tail);
  }

  /** The sampling points fall in the right bits exactly for these bit times, and the last
      one is followed by nothing but stop bit. */
  lemma SampledLevels(b: byte, B: nat)
    requires 825 <= B <= 916
    ensures !Level(b, B, 0)
    ensures Level(b, B, 1302) == DataBit(b, 0) && Level(b, B, 2170) == DataBit(b, 1)
    ensures Level(b, B, 3038) == DataBit(b, 2) && Level(b, B, 3906) == DataBit(b, 3)
    ensures Level(b, B, 4774) == DataBit(b, 4) && Level(b, B, 5642) == DataBit(b, 5)
    ensures Level(b, B, 6510) == DataBit(b, 6) && Level(b, B, 7378) == DataBit(b, 7)
    ensures Level(b, B, 8246)
    ensures forall t :: FRAME_TICKS <= t < 10 * B ==> Level(b, B, t)
  {
    hide DataBit;
  }

  // ------------------------------------------------------------- whole streams

  ghost predicate WithinBound(frames: seq<Frame>) {
    forall i :: 0 <= i < |frames| ==> 825 <= frames[i].bitTime <= 916
  }

  /** Every byte is received, each frame at its own bit time and after any gap. */
  lemma {:induction false} StreamReceived(s: State, frames: seq<Frame>)
    requires s.idle && WithinBound(frames)
    ensures var r := Run(s, Line(frames)); r.idle && r.out == s.out + Bytes(frames)
    decreases |frames|
  {
    hide Run, FrameLine;
    if frames == [] {
      RunNothing(s);
    } else {
      var f := frames[0];
      var frame, rest := FrameLine(f.data, f.bitTime), Line(frames[1..]);
      assert Line(frames) == Ones(f.gap) + frame + rest;
      RunConcat(s, Ones(f.gap) + frame, rest);
      RunConcat(s, Ones(f.gap), frame);
      IdleStays(s, Ones(f.gap));
      FrameDecoded(s, f.data, f.bitTime);
      StreamReceived(Run(s, frame), frames[1..]);
      assert Bytes(frames) == [f.data] + Bytes(frames[1..]);
    }
  }

  lemma RunNothing(s: State)
    ensures Run(s, []) == s
  {
  }

  // ------------------------------------------------------------- the bound is exact

  ghost predicate AllAt(frames: seq<Frame>, B: nat) {
    forall i :: 0 <= i < |frames| ==> frames[i].bitTime == B
  }

  const RESET := State(true, 0, 0, 0, [])

  /** Every stream at bit time B comes through, once the line has idled for a frame. */
  ghost predicate Follows(B: nat) {
    forall frames :: AllAt(frames, B) ==> Run(RESET, Line(frames) + Ones(FRAME_TICKS)).out == Bytes(frames)
  }

  /** How many ticks into a frame the receiver is. */
  function Progress(s: State): int {
    if s.idle then 0 else TICKS_PER_BAUD + TICKS_PER_BAUD / 2 - s.baudcount + TICKS_PER_BAUD * s.rxCount
  }

  ghost predicate Sound(s: State) {
    !s.idle ==> s.rxCount < 9 && 0 <= s.baudcount < TICKS_PER_BAUD + TICKS_PER_BAUD / 2
  }

  lemma TickProgress(s: State, rx: bool)
    requires Sound(s)
    ensures var t := Ticked(s, rx);
            Sound(t) && FRAME_TICKS * |t.out| + Progress(t) <= FRAME_TICKS * |s.out| + Progress(s) + 1
    ensures s.out <= Ticked(s, rx).out
  {
    hide Shifted, Received;
  }

  /** No more than one byte every FRAME_TICKS, and none taken back. */
  lemma {:induction false} Throughput(s: State, line: seq<bool>)
    requires Sound(s)
    ensures var r := Run(s, line);
            Sound(r) && s.out <= r.out &&
            FRAME_TICKS * |r.out| + Progress(r) <= FRAME_TICKS * |s.out| + Progress(s) + |line|
    decreases |line|
  {
    hide Ticked, Progress, Sound;
    if line != [] {
      TickProgress(s, line[0]);
      Throughput(Ticked(s, line[0]), line[1..]);
    }
  }

  function Repeated(B: nat, n: nat): (frames: seq<Frame>)
    ensures |frames| == n
  {
    seq(n, _ => Frame(0, B, 0))
  }

  lemma {:induction false} RepeatedLength(B: nat, n: nat)
    requires B <= 824
    ensures |Line(Repeated(B, n))| <= 8240 * n
    decreases n
  {
    if n > 0 {
      assert Repeated(B, n)[1..] == Repeated(B, n - 1);
      RepeatedLength(B, n - 1);
    }
  }

  /** A faster sender outruns the receiver, which needs FRAME_TICKS a byte. */
  lemma TooFast(B: nat)
    requires B <= 824
    ensures !Follows(B)
  {
    hide Run, Line;
    var frames := Repeated(B, 1179);
    var line := Line(frames) + Ones(FRAME_TICKS);
    RepeatedLength(B, 1179);
    assert |line| <= 8240 * 1179 + FRAME_TICKS;
    Throughput(RESET, line);
    assert |Run(RESET, line).out| < 1179 == |Bytes(frames)|;
    assert AllAt(frames, B);
  }

  /** A slower sender is still sending the last data bit when the receiver looks for the
      next start bit. */
  lemma TooSlow(B: nat)
    requires B >= 917
    ensures !Follows(B)
  {
    hide Run, Received, Shifted;
    var frames := [Frame(0, B, 0)];
    var frame := FrameLine(0, B);
    assert Line([]) == [];
    assert Line(frames) == frame;
    var line := frame + Ones(FRAME_TICKS);
    assert DataBit(0, 7) == false by {
      DeepBits(0);
    }
    assert line[0] == Level(0, B, 0) == false;
    assert line[FRAME_TICKS] == Level(0, B, FRAME_TICKS) == false by {
      LowUntilStop(B, FRAME_TICKS);
    }
    FrameReceived(RESET, line);
    SecondByte(line);
    assert AllAt(frames, B) && |Bytes(frames)| == 1;
  }

  lemma LowUntilStop(B: nat, t: nat)
    requires t < 9 * B
    ensures !Level(0, B, t)
  {
    DeepBits(0);
  }

  /** A line that is low again when the first frame is over yields a second byte. */
  lemma SecondByte(line: seq<bool>)
    requires |line| >= 2 * FRAME_TICKS && !line[0] && !line[FRAME_TICKS]
    ensures |Run(RESET, line).out| >= 2
  {
    hide Run, Received, Shifted;
    FrameReceived(RESET, line);
    var s1 := AfterFrame(Samples(line), RESET.out);
    var rest := line[FRAME_TICKS..];
    FrameReceived(s1, rest);
    Throughput(AfterFrame(Samples(rest), s1.out), rest[FRAME_TICKS..]);
  }

  /** The receiver follows every stream at a bit time exactly when that is between 825 and
      916 ticks; the nominal one is 868. */
  lemma FollowsIff(B: nat)
    ensures Follows(B) <==> 825 <= B <= 916
  {
    hide Run, Line, Ones;
    if B <= 824 {
      TooFast(B);
    } else if B >= 917 {
      TooSlow(B);
    } else {
      forall frames | AllAt(frames, B) ensures Run(RESET, Line(frames) + Ones(FRAME_TICKS)).out == Bytes(frames) {
        StreamReceived(RESET, frames);
        RunConcat(RESET, Line(frames), Ones(FRAME_TICKS));
        OnesIgnored(Run(RESET, Line(frames)));
      }
    }
  }

  lemma OnesIgnored(s: State)
    requires s.idle
    ensures Run(s, Ones(FRAME_TICKS)) == s
  {
    hide Run;
    IdleStays(s, Ones(FRAME_TICKS));
  }
}
