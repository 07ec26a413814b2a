/** The S-record reader as a function of the characters it is given, and the stores its
    callback makes (boot/kk_srec.c, boot/kk_srec.h, boot/boot_code.c). */
module Srec {
  import opened Words

  const MAX_COUNT := 37

  /** One call of `srec_data_read`. */
  datatype Call = Call(kind: nat, address: word, payload: seq<byte>, length: nat, byteCount: nat, checksumError: byte)

  datatype State = State(flags: byte, byteCount: byte, length: nat, data: seq<byte>, log: seq<Call>, mem: seq<byte>)

  /** `flags & 0xF0`, the record's kind. */
  function HighPart(f: byte): (r: byte)
    ensures r <= 240
  {
    f / 16 * 16
  }

  /** `flags & 0x0F`, the read state. */
  function LowPart(f: byte): (r: byte)
    ensures r < 16
  {
    f % 16
  }

  lemma FlagParts(k: nat, state: nat)
    requires k < 16 && state < 16
    ensures HighPart(k * 16 + state) == k * 16 && LowPart(k * 16 + state) == state && (k * 16 + state) / 16 == k
  {
  }

  lemma FlagSplit(f: byte)
    ensures f == f / 16 * 16 + LowPart(f) && HighPart(f) == f / 16 * 16 && 0 <= f / 16 < 16
  {
  }

  /** The array's size, a length that stays in it or at its end, and a read state the
      reader knows. */
  ghost predicate Shaped(s: State) {
    |s.data| == MAX_COUNT + 1 && |s.mem| == TWO32 && s.length <= MAX_COUNT + 1 && LowPart(s.flags) <= 6
  }

  // ------------------------------------------------------------- characters

  datatype Token = Start | Digit(value: nat) | Junk

  /** Hex digits of either case, the record mark, and everything else. */
  function TokenOf(c: byte): (t: Token)
    ensures t.Digit? ==> t.value < 16
  {
    if '0' as int <= c <= '9' as int then Digit(c - '0' as int)
    else if 'A' as int <= c <= 'F' as int then Digit(c - ('A' as int - 10))
    else if 'a' as int <= c <= 'f' as int then Digit(c - ('a' as int - 10))
    else if c == 'S' as int then Start
    else Junk
  }

  function Tokens(chars: seq<byte>): seq<Token>
    decreases |chars|
  {
    if chars == [] then []
    else (if TokenOf(chars[0]).Junk? then [] else [TokenOf(chars[0])]) + Tokens(chars[1..])
  }

  // ------------------------------------------------------------- the callback's stores

  /** A 32-bit store of one byte value. */
  function StoreWord(m: seq<byte>, a: word, b: byte): (r: seq<byte>)
    requires |m| == TWO32
    ensures |r| == TWO32
  {
    m[a := b][ToWord(a + 1) := 0][ToWord(a + 2) := 0][ToWord(a + 3) := 0]
  }

  /** The first n bytes of a payload, each stored as a whole word. */
  function StoreBytes(m: seq<byte>, address: word, payload: seq<byte>, n: nat): (r: seq<byte>)
    requires |m| == TWO32 && n <= |payload|
    ensures |r| == TWO32
    decreases n
  {
    if n == 0 then m
    else StoreWord(StoreBytes(m, address, payload, n - 1), ToWord(address + (n - 1)), payload[n - 1])
  }

  predicate IsData(kind: nat) {
    kind != 0 && kind <= 3
  }

  function Stored(m: seq<byte>, c: Call): (r: seq<byte>)
    requires |m| == TWO32
    ensures |r| == TWO32
  {
    if IsData(c.kind) then StoreBytes(m, c.address, c.payload, |c.payload|) else m
  }

  // ------------------------------------------------------------- the reader

  /** `SREC_ADDRESS_BYTE_COUNT`. */
  function AddressBytes(kind: nat): (n: nat)
    ensures 2 <= n <= 4
  {
    2 + (if kind % 2 == 1 || kind == 0 then kind / 2 % 2 * 2 else 1)
  }

  function Sum(s: seq<byte>): nat {
    if s == [] then 0 else Sum(s[..|s| - 1]) + s[|s| - 1]
  }

  /** The address bytes, most significant first. */
  function BigEndian(s: seq<byte>): nat {
    if s == [] then 0 else 256 * BigEndian(s[..|s| - 1]) + s[|s| - 1]
  }

  lemma {:induction false} BigEndianFits(s: seq<byte>)
    ensures BigEndian(s) < Pow256(|s|)
  {
    if s != [] {
      BigEndianFits(s[..|s| - 1]);
    }
  }

  function Address(s: seq<byte>): word
    requires |s| <= 4
  {
    ToWord(BigEndian(s))
  }

  /** The call made for length bytes of data, whatever the array holds beyond them. */
  function CallWith(kind: nat, data: seq<byte>, length: nat, byteCount: nat): Call
    requires |data| == MAX_COUNT + 1 && length <= MAX_COUNT + 1
  {
    var a := AddressBytes(kind);
    Call(kind, Address(data[..a]), if length > a then data[a..length - 1] else [], length, byteCount,
         (length + Sum(data[..length]) + 1) % 256)
  }

  /** The call `srec_end_read` makes. */
  function CallOf(s: State): Call
    requires |s.data| == MAX_COUNT + 1 && s.length <= MAX_COUNT + 1
  {
    CallWith(s.flags / 16, s.data, s.length, s.byteCount)
  }

  function EndRead(s: State): (r: State)
    requires Shaped(s)
    ensures Shaped(r)
  {
    if s.byteCount == 0 then s
    else State(0, 0, 0, s.data, s.log + [CallOf(s)], Stored(s.mem, CallOf(s)))
  }

  function Bit(x: nat, k: nat): nat
    requires k > 0
  {
    x / k % 2
  }

  /** Bitwise or of a byte with a nibble. */
  function OrNibble(x: byte, v: nat): (r: byte)
    requires v < 16
    ensures x % 16 == 0 ==> r == x + v
  {
    var l := x % 16;
    var r := (if Bit(l, 8) == 1 || Bit(v, 8) == 1 then 8 else 0) + (if Bit(l, 4) == 1 || Bit(v, 4) == 1 then 4 else 0)
           + (if Bit(l, 2) == 1 || Bit(v, 2) == 1 then 2 else 0) + (if Bit(l, 1) == 1 || Bit(v, 1) == 1 then 1 else 0);
    x / 16 * 16 + r
  }

  /** A digit goes into the array unless it names the kind of a record. */
  predicate Touches(s: State, t: Token) {
    t.Digit? && LowPart(s.flags) != 1
  }

  /** The digit-reading half of `srec_read_byte`, with `state` turned off in the flags. */
  function ReadDigit(s: State, v: nat): (r: State)
    requires Shaped(s) && (LowPart(s.flags) != 1 ==> s.length <= MAX_COUNT) && v < 16
    ensures Shaped(r)
  {
    var state := LowPart(s.flags) + 1;
    var flags := HighPart(s.flags);
    FlagSplit(s.flags);
    FlagParts(s.flags / 16, 0);
    FlagParts(s.flags / 16, state);
    FlagParts(s.flags / 16, 5);
    FlagParts(v, 3);
    if state % 2 == 0 then
      if state != 2 then s.(data := s.data[s.length := v * 16], flags := flags + state)
      else s.(flags := v * 16 + 3)
    else
      var b := OrNibble(s.data[s.length], v);
      var t := s.(data := s.data[s.length := b], flags := flags);
      if state / 2 == 2 then
        if b > MAX_COUNT then EndRead(t.(byteCount := b))
        else t.(byteCount := b, flags := flags + state)
      else if state / 2 == 3 then
        if s.length + 1 < s.byteCount then t.(length := s.length + 1, flags := flags + 5)
        else EndRead(t.(length := s.length + 1))
      else t
  }

  /** `srec_read_byte`. */
  function ReadByte(s: State, c: byte): (r: State)
    requires Shaped(s) && (Touches(s, TokenOf(c)) ==> s.length <= MAX_COUNT)
    ensures Shaped(r)
  {
    Read(s, TokenOf(c))
  }

  function Read(s: State, t: Token): (r: State)
    requires Shaped(s) && (Touches(s, t) ==> s.length <= MAX_COUNT) && (t.Digit? ==> t.value < 16)
    ensures Shaped(r)
  {
    match t
    case Junk => s
    case Start =>
      FlagSplit(s.flags);
      FlagParts(s.flags / 16, 0);
      FlagParts(s.flags / 16, 1);
      FlagParts(0, 1);
      var e := EndRead(s.(flags := HighPart(s.flags)));
      e.(flags := e.flags + 1)
    case Digit(v) => ReadDigit(s, v)
  }

  ghost predicate AllDigits(toks: seq<Token>) {
    forall i :: 0 <= i < |toks| && toks[i].Digit? ==> toks[i].value < 16
  }

  /** A run over tokens; None once a digit would go into the array past its end. */
  ghost function Run(s: State, toks: seq<Token>): (r: Option<State>)
    requires Shaped(s) && AllDigits(toks)
    ensures r.Some? ==> Shaped(r.value)
    decreases |toks|
  {
    if toks == [] then Some(s)
    else if Touches(s, toks[0]) && s.length > MAX_COUNT then None
    else Run(Read(s, toks[0]), toks[1..])
  }

  /** A run over characters. */
  ghost function RunChars(s: State, chars: seq<byte>): (r: Option<State>)
    requires Shaped(s)
    ensures r.Some? ==> Shaped(r.value)
    decreases |chars|
  {
    if chars == [] then Some(s)
    else if Touches(s, TokenOf(chars[0])) && s.length > MAX_COUNT then None
    else RunChars(Read(s, TokenOf(chars[0])), chars[1..])
  }

  lemma {:induction false} TokensAreDigits(chars: seq<byte>)
    ensures AllDigits(Tokens(chars))
    decreases |chars|
  {
    hide TokenOf;
    if chars != [] {
      TokensAreDigits(chars[1..]);
    }
  }

  /** Characters that are neither hex digits nor the record mark make no difference,
      wherever they stand. */
  lemma {:induction false} JunkIgnored(s: State, chars: seq<byte>)
    requires Shaped(s)
    ensures AllDigits(Tokens(chars))
    ensures RunChars(s, chars) == Run(s, Tokens(chars))
    decreases |chars|
  {
    hide TokenOf, ReadDigit, EndRead;
    TokensAreDigits(chars);
    if chars != [] {
      var t := TokenOf(chars[0]);
      if t.Junk? {
        assert Tokens(chars) == Tokens(chars[1..]);
        JunkIgnored(s, chars[1..]);
      } else {
        assert Tokens(chars)[1..] == Tokens(chars[1..]);
        if !Touches(s, t) || s.length <= MAX_COUNT {
          JunkIgnored(Read(s, t), chars[1..]);
        }
      }
    }
  }

  lemma {:induction false} RunConcat(s: State, a: seq<Token>, b: seq<Token>)
    requires Shaped(s) && AllDigits(a) && AllDigits(b) && Run(s, a).Some?
    ensures Run(s, a + b) == Run(Run(s, a).value, b)
    decreases |a|
  {
    hide Read;
    if a == [] {
      assert a + b == b;
    } else {
      assert (a + b)[1..] == a[1..] + b;
      RunConcat(Read(s, a[0]), a[1..], b);
    }
  }

  // ------------------------------------------------------------- records

  /** The two digits of a byte. */
  function Pair(b: byte): seq<Token> {
    [Digit(b / 16), Digit(b % 16)]
  }

  function Digits(bs: seq<byte>): (toks: seq<Token>)
    ensures AllDigits(toks)
  {
    if bs == [] then [] else Pair(bs[0]) + Digits(bs[1..])
  }

  /** The significant characters of a record: its kind, its count, and its bytes. */
  function RecordTokens(kind: nat, body: seq<byte>): (toks: seq<Token>)
    requires kind < 16 && |body| < 256
    ensures AllDigits(toks)
  {
    [Start, Digit(kind)] + Pair(|body|) + Digits(body)
  }

  /** A body the array holds, if only a checksum. */
  predicate Holds(kind: nat, body: seq<byte>) {
    kind < 16 && 0 < |body| <= MAX_COUNT
  }

  /** A body long enough for its kind's address and a checksum. */
  predicate Sized(kind: nat, body: seq<byte>) {
    kind < 16 && AddressBytes(kind) < |body| <= MAX_COUNT
  }

  function CheckSum(body: seq<byte>): byte {
    (|body| + Sum(body) + 1) % 256
  }

  /** The call a record leads to when the array held `was` before: a body too short for
      its address is completed from there. */
  function BodyCall(kind: nat, body: seq<byte>, was: seq<byte>): Call
    requires Holds(kind, body) && |was| == MAX_COUNT + 1
  {
    CallWith(kind, body + was[|body|..], |body|, |body|)
  }

  /** The call of a record that is long enough depends on its own bytes alone. */
  function RecordCall(kind: nat, body: seq<byte>): Call
    requires Sized(kind, body)
  {
    var a := AddressBytes(kind);
    Call(kind, Address(body[..a]), body[a..|body| - 1], |body|, |body|, CheckSum(body))
  }

  lemma SizedCall(kind: nat, body: seq<byte>, was: seq<byte>)
    requires Sized(kind, body) && |was| == MAX_COUNT + 1
    ensures BodyCall(kind, body, was) == RecordCall(kind, body)
  {
    hide Address, Sum, AddressBytes;
    var data := body + was[|body|..];
    var a := AddressBytes(kind);
    assert data[..|body|] == body;
    assert data[..a] == body[..a];
    assert data[a..|body| - 1] == body[a..|body| - 1];
  }

  /** A state from which the reader synchronises: no length without a count. */
  ghost predicate Synchronisable(s: State) {
    Shaped(s) && s.length <= MAX_COUNT && (s.byteCount == 0 ==> s.length == 0)
  }

  /** Inside a record: i bytes of the body read over what the array held. */
  ghost predicate Reading(s: State, kind: nat, body: seq<byte>, i: nat, was: seq<byte>) {
    Shaped(s) && Holds(kind, body) && s.flags == kind * 16 + 5 && s.byteCount == |body| && s.length == i < |body| &&
    |was| == MAX_COUNT + 1 && s.data[..i] == body[..i] && s.data[|body|..] == was[|body|..]
  }

  lemma NibblesJoin(b: byte)
    ensures 0 <= b / 16 < 16 && 0 <= b % 16 < 16 && b / 16 * 16 + b % 16 == b
  {
  }

  /** The first digit of a byte is kept in the array. */
  lemma HighDigit(s: State, v: nat)
    requires Shaped(s) && s.length <= MAX_COUNT && v < 16 && LowPart(s.flags) in {3, 5}
    ensures Read(s, Digit(v)) == s.(data := s.data[s.length := v * 16], flags := s.flags + 1)
    ensures LowPart(s.flags + 1) == LowPart(s.flags) + 1
  {
    hide EndRead;
    FlagSplit(s.flags);
    FlagParts(s.flags / 16, LowPart(s.flags) + 1);
  }

  /** Reading is over: the state bits are cleared. */
  function Closed(f: byte): (r: byte)
    ensures r == f - LowPart(f) && LowPart(r) == 0
  {
    FlagSplit(f);
    FlagParts(f / 16, 0);
    f - LowPart(f)
  }

  lemma NibbleIn(h: nat, v: nat)
    requires h < 16 && v < 16
    ensures OrNibble(h * 16, v) == h * 16 + v
  {
  }

  /** The second completes it, and perhaps the record. */
  lemma LowDigit(s: State, h: nat, v: nat)
    requires Shaped(s) && s.length <= MAX_COUNT && h < 16 && v < 16 && LowPart(s.flags) == 6
    requires s.data[s.length] == h * 16
    ensures var data := s.data[s.length := h * 16 + v];
            var t := s.(data := data, length := s.length + 1, flags := Closed(s.flags));
            Read(s, Digit(v)) == if s.length + 1 < s.byteCount then t.(flags := s.flags - 1) else EndRead(t)
  {
    hide EndRead, OrNibble, HighPart, LowPart;
    NibbleIn(h, v);
    FlagSplit(s.flags);
    FlagParts(s.flags / 16, 0);
    FlagParts(s.flags / 16, 5);
  }

  lemma CountDigit(s: State, h: nat, v: nat)
    requires Shaped(s) && s.length <= MAX_COUNT && h < 16 && v < 16 && LowPart(s.flags) == 4
    requires s.data[s.length] == h * 16
    ensures var count := h * 16 + v;
            var t := s.(data := s.data[s.length := count], byteCount := count);
            Read(s, Digit(v)) ==
            if count > MAX_COUNT then EndRead(t.(flags := Closed(s.flags))) else t.(flags := s.flags + 1)
    ensures LowPart(s.flags + 1) == 5
  {
    hide EndRead, OrNibble, HighPart, LowPart;
    NibbleIn(h, v);
    FlagSplit(s.flags);
    FlagParts(s.flags / 16, 0);
    FlagParts(s.flags / 16, 5);
  }

  /** One more byte of the body, not the last. */
  lemma ReadMiddleByte(s: State, kind: nat, body: seq<byte>, i: nat, was: seq<byte>)
    requires Reading(s, kind, body, i, was) && i + 1 < |body|
    ensures var t := Read(s, Digit(body[i] / 16));
            t.length == i && Shaped(t) &&
            var u := Read(t, Digit(body[i] % 16));
            Reading(u, kind, body, i + 1, was) && u.log == s.log && u.mem == s.mem
  {
    hide Read;
    NibblesJoin(body[i]);
    HighDigit(s, body[i] / 16);
    var t := Read(s, Digit(body[i] / 16));
    LowDigit(t, body[i] / 16, body[i] % 16);
    var u := Read(t, Digit(body[i] % 16));
    assert u.data == s.data[i := body[i]];
    assert u.data[..i + 1] == s.data[..i] + [body[i]] == body[..i + 1];
    assert u.data[|body|..] == s.data[|body|..];
  }

  /** The last one makes the call. */
  lemma ReadLastByte(s: State, kind: nat, body: seq<byte>, was: seq<byte>)
    requires Holds(kind, body) && Reading(s, kind, body, |body| - 1, was)
    ensures var i := |body| - 1;
            var t := Read(s, Digit(body[i] / 16));
            t.length == i && Shaped(t) &&
            var c := BodyCall(kind, body, was);
            Read(t, Digit(body[i] % 16)) == State(0, 0, 0, body + was[|body|..], s.log + [c], Stored(s.mem, c))
  {
    hide Read, Stored, CallWith;
    var i := |body| - 1;
    NibblesJoin(body[i]);
    HighDigit(s, body[i] / 16);
    var t := Read(s, Digit(body[i] / 16));
    LowDigit(t, body[i] / 16, body[i] % 16);
    var data := s.data[i := body[i]];
    assert t.data[i := body[i]] == data;
    assert data == s.data[..i] + [body[i]] + s.data[|body|..];
    assert data == body + was[|body|..];
  }

  lemma UnfoldPair(s: State, b: byte)
    requires Shaped(s) && s.length <= MAX_COUNT && Read(s, Digit(b / 16)).length <= MAX_COUNT
    ensures Run(s, Pair(b)) == Some(Read(Read(s, Digit(b / 16)), Digit(b % 16)))
  {
    hide Read;
    var t := Read(s, Digit(b / 16));
    assert Pair(b)[1..] == [Digit(b % 16)];
    assert Run(t, [Digit(b % 16)]) == Run(Read(t, Digit(b % 16)), []);
  }

  /** The rest of a body, up to the call. */
  lemma {:induction false} ReadBody(s: State, kind: nat, body: seq<byte>, i: nat, was: seq<byte>)
    requires Holds(kind, body) && Reading(s, kind, body, i, was)
    ensures var c := BodyCall(kind, body, was);
            Run(s, Digits(body[i..])) == Some(State(0, 0, 0, body + was[|body|..], s.log + [c], Stored(s.mem, c)))
    decreases |body| - i
  {
    hide Read, Stored, BodyCall;
    var rest := body[i..];
    assert rest[1..] == body[i + 1..];
    if i + 1 < |body| {
      ReadMiddleByte(s, kind, body, i, was);
    } else {
      ReadLastByte(s, kind, body, was);
    }
    UnfoldPair(s, body[i]);
    RunConcat(s, Pair(body[i]), Digits(rest[1..]));
    assert Digits(rest) == Pair(body[i]) + Digits(rest[1..]);
    if i + 1 < |body| {
      ReadBody(Read(Read(s, Digit(body[i] / 16)), Digit(body[i] % 16)), kind, body, i + 1, was);
    }
  }

  /** The record mark ends whatever came before. */
  lemma MarkRead(s: State)
    requires Synchronisable(s)
    ensures var e := Read(s, Start); Shaped(e) && e.length == 0 && e.byteCount == 0 && LowPart(e.flags) == 1
    ensures Read(s, Start).data == s.data
  {
    hide CallOf, Stored;
  }

  lemma KindRead(s: State, kind: nat)
    requires Shaped(s) && LowPart(s.flags) == 1 && kind < 16
    ensures Read(s, Digit(kind)) == s.(flags := kind * 16 + 3)
  {
    hide EndRead;
  }

  /** The four characters in front of a body, one by one. */
  lemma FrontSteps(s: State, kind: nat, body: seq<byte>)
    requires Holds(kind, body) && Synchronisable(s)
    ensures var ended := Read(s, Start);
            LowPart(ended.flags) == 1 &&
            var typed := Read(ended, Digit(kind));
            typed.length == 0 &&
            var high := Read(typed, Digit(|body| / 16));
            high.length == 0 && Shaped(high) &&
            var low := Read(high, Digit(|body| % 16));
            Reading(low, kind, body, 0, s.data) && low.log == ended.log && low.mem == ended.mem
  {
    hide Read, EndRead, HighPart, LowPart;
    var ended := Read(s, Start);
    MarkRead(s);
    KindRead(ended, kind);
    var typed := Read(ended, Digit(kind));
    NibblesJoin(|body|);
    FlagParts(kind, 3);
    HighDigit(typed, |body| / 16);
    CountDigit(Read(typed, Digit(|body| / 16)), |body| / 16, |body| % 16);
    assert s.data[0 := |body| / 16 * 16][0 := |body|][|body|..] == s.data[|body|..];
  }

  lemma ReadFront(s: State, kind: nat, body: seq<byte>)
    requires Holds(kind, body) && Synchronisable(s)
    ensures AllDigits([Start, Digit(kind)] + Pair(|body|))
    ensures var ended := Read(s, Start);
            var r := Run(s, [Start, Digit(kind)] + Pair(|body|));
            r.Some? && Reading(r.value, kind, body, 0, s.data) && r.value.log == ended.log && r.value.mem == ended.mem
  {
    hide Read, Reading, LowPart;
    FrontSteps(s, kind, body);
    var ended := Read(s, Start);
    var typed := Read(ended, Digit(kind));
    var toks := [Start, Digit(kind)] + Pair(|body|);
    assert toks[1..][0] == Digit(kind) && toks[1..][1..] == Pair(|body|);
    UnfoldPair(typed, |body|);
    assert Run(s, toks) == Run(ended, toks[1..]) == Run(typed, Pair(|body|));
  }

  /** What is left of whatever the mark ended, with the record's call and its stores. */
  ghost function AfterRecord(s: State, kind: nat, body: seq<byte>): (r: State)
    requires Holds(kind, body) && Shaped(s)
    ensures Shaped(r)
  {
    var ended, c := Read(s, Start), BodyCall(kind, body, s.data);
    State(0, 0, 0, body + s.data[|body|..], ended.log + [c], Stored(ended.mem, c))
  }

  /** From any synchronisable state, in the middle of a record or not, a record leads to
      its own call right after whatever its mark ended. */
  lemma RecordRead(s: State, kind: nat, body: seq<byte>)
    requires Holds(kind, body) && Synchronisable(s)
    ensures Run(s, RecordTokens(kind, body)) == Some(AfterRecord(s, kind, body))
    ensures Sized(kind, body) ==> BodyCall(kind, body, s.data) == RecordCall(kind, body)
  {
    hide Read, Stored, BodyCall, RecordCall, Pair, Digits;
    ReadFront(s, kind, body);
    var front := [Start, Digit(kind)] + Pair(|body|);
    assert AllDigits(front);
    var mid := Run(s, front).value;
    ReadBody(mid, kind, body, 0, s.data);
    assert body[0..] == body;
    RunConcat(s, front, Digits(body));
    if Sized(kind, body) {
      SizedCall(kind, body, s.data);
    }
  }
}
