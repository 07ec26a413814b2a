/** When the S-record reader stays within its array, read off the text alone
    (boot/kk_srec.c). */
module SrecBounds {
  import opened Words
  import opened Srec

  /** What the text so far says: whether a mark has come, the digits since the last one,
      and how many count-00 records with a byte of data have gone by since the last
      record with another count. */
  datatype Scan = Scan(marked: bool, digits: seq<nat>, zeros: nat)

  const FRESH := Scan(false, [], 0)

  /** The count field of the digits after a mark. */
  function CountOf(digits: seq<nat>): nat
    requires |digits| >= 3
  {
    16 * digits[1] + digits[2]
  }

  function After(c: Scan, t: Token): Scan {
    match t
    case Junk => c
    case Start => Scan(true, [], c.zeros)
    case Digit(v) =>
      if !c.marked then c
      else
        var digits := c.digits + [v];
        var zeros := if |digits| == 3 && CountOf(digits) != 0 then 0
                     else if |digits| == 5 && CountOf(digits) == 0 then c.zeros + 1
                     else c.zeros;
        Scan(true, digits, zeros)
  }

  function Scanned(c: Scan, toks: seq<Token>): Scan
    decreases |toks|
  {
    if toks == [] then c else Scanned(After(c, toks[0]), toks[1..])
  }

  /** t is a digit, and not the one that follows a mark. */
  predicate GoesIn(c: Scan, t: Token) {
    t.Digit? && (c.marked ==> c.digits != [])
  }

  /** The i-th character goes in when as many count-00 records as the array has places
      have gone by. */
  predicate OverrunsAt(c: Scan, toks: seq<Token>, i: nat) {
    i < |toks| && GoesIn(Scanned(c, toks[..i]), toks[i]) && Scanned(c, toks[..i]).zeros > MAX_COUNT
  }

  ghost predicate Overruns(c: Scan, toks: seq<Token>) {
    exists i: nat :: OverrunsAt(c, toks, i)
  }

  // ------------------------------------------------------------- the text and the reader

  /** The length that the next mark will leave. */
  function Level(s: State): nat {
    if s.byteCount != 0 then 0 else s.length
  }

  /** Where the reader is inside a record. */
  ghost predicate Placed(s: State, digits: seq<nat>)
    requires Shaped(s)
  {
    var at := LowPart(s.flags);
    if |digits| == 0 then at == 1 && s.byteCount == 0
    else if |digits| == 1 then at == 3 && s.byteCount == 0
    else if |digits| == 2 then
      at == 4 && s.byteCount == 0 && s.length <= MAX_COUNT && s.data[s.length] == digits[1] * 16
    else if CountOf(digits) == 0 then
      s.byteCount == 0 &&
      (if |digits| == 3 then at == 5
       else if |digits| == 4 then at == 6 && s.length <= MAX_COUNT && s.data[s.length] % 16 == 0
       else at == 0)
    else
      (0 < s.byteCount <= MAX_COUNT && s.length <= MAX_COUNT &&
       (at == 5 || (at == 6 && s.data[s.length] % 16 == 0))) ||
      (s.byteCount == 0 && s.length == 0 && at == 0)
  }

  /** The reader's state and the text agree. */
  ghost predicate Tracks(s: State, c: Scan) {
    Shaped(s) && Level(s) == c.zeros && (forall i :: 0 <= i < |c.digits| ==> c.digits[i] < 16) &&
    if c.marked then Placed(s, c.digits) else LowPart(s.flags) == 0 && s.byteCount == 0
  }

  /** What goes into the array, and whether there is room, shows in the text. */
  lemma RoomShows(s: State, c: Scan, t: Token)
    requires Tracks(s, c)
    ensures Touches(s, t) <==> GoesIn(c, t)
    ensures s.length > MAX_COUNT <==> c.zeros > MAX_COUNT
  {
  }

  lemma MarkTracks(s: State, c: Scan)
    requires Tracks(s, c)
    ensures Tracks(Read(s, Start), After(c, Start))
  {
    hide CallWith, Stored;
    FlagSplit(s.flags);
    FlagParts(s.flags / 16, 1);
    FlagParts(0, 1);
  }

  /** Outside a record a digit is stored and forgotten. */
  lemma IdleDigit(s: State, v: nat)
    requires Shaped(s) && s.length <= MAX_COUNT && v < 16 && LowPart(s.flags) == 0
    ensures var data := s.data[s.length := OrNibble(s.data[s.length], v)];
            Read(s, Digit(v)) == s.(data := data, flags := HighPart(s.flags))
    ensures LowPart(HighPart(s.flags)) == 0
  {
    hide EndRead, OrNibble;
    FlagSplit(s.flags);
    FlagParts(s.flags / 16, 0);
  }

  lemma IdleTracks(s: State, c: Scan, v: nat)
    requires Tracks(s, c) && v < 16 && LowPart(s.flags) == 0 && s.length <= MAX_COUNT
    ensures Tracks(Read(s, Digit(v)), After(c, Digit(v)))
  {
    hide Read, OrNibble, HighPart, LowPart;
    IdleDigit(s, v);
  }

  lemma KindTracks(s: State, c: Scan, v: nat)
    requires Tracks(s, c) && v < 16 && LowPart(s.flags) == 1
    ensures Tracks(Read(s, Digit(v)), After(c, Digit(v)))
  {
    hide Read, HighPart, LowPart;
    KindRead(s, v);
    FlagParts(v, 3);
  }

  lemma HighTracks(s: State, c: Scan, v: nat)
    requires Tracks(s, c) && v < 16 && LowPart(s.flags) in {3, 5} && s.length <= MAX_COUNT
    ensures Tracks(Read(s, Digit(v)), After(c, Digit(v)))
  {
    hide Read, HighPart, LowPart;
    HighDigit(s, v);
  }

  /** An ended reader is at rest and its length is gone, unless there was no count. */
  lemma EndedAtRest(s: State)
    requires Shaped(s) && LowPart(s.flags) == 0
    ensures var e := EndRead(s); Shaped(e) && LowPart(e.flags) == 0 && e.byteCount == 0 && e.length == Level(s)
  {
    hide CallWith, Stored;
    FlagParts(0, 0);
  }

  lemma CountTracks(s: State, c: Scan, v: nat)
    requires Tracks(s, c) && v < 16 && LowPart(s.flags) == 4
    ensures Tracks(Read(s, Digit(v)), After(c, Digit(v)))
  {
    hide Read, HighPart, LowPart, EndRead;
    CountDigit(s, c.digits[1], v);
    FlagSplit(s.flags);
    FlagParts(s.flags / 16, 0);
    var count := c.digits[1] * 16 + v;
    EndedAtRest(s.(data := s.data[s.length := count], byteCount := count, flags := s.flags - 4));
  }

  lemma LowTracks(s: State, c: Scan, v: nat)
    requires Tracks(s, c) && v < 16 && LowPart(s.flags) == 6
    ensures Tracks(Read(s, Digit(v)), After(c, Digit(v)))
  {
    hide Read, HighPart, LowPart, EndRead;
    var h := s.data[s.length] / 16;
    LowDigit(s, h, v);
    FlagSplit(s.flags);
    FlagParts(s.flags / 16, 0);
    FlagParts(s.flags / 16, 5);
    EndedAtRest(s.(data := s.data[s.length := h * 16 + v], length := s.length + 1, flags := s.flags - 6));
  }

  /** Every step keeps text and state in agreement while there is room. */
  lemma StepTracks(s: State, c: Scan, t: Token)
    requires Tracks(s, c) && (t.Digit? ==> t.value < 16) && !(GoesIn(c, t) && c.zeros > MAX_COUNT)
    ensures (Touches(s, t) ==> s.length <= MAX_COUNT) && Tracks(Read(s, t), After(c, t))
  {
    hide Read, After, LowPart, HighPart;
    RoomShows(s, c, t);
    match t
    case Junk => JunkTracks(s, c);
    case Start => MarkTracks(s, c);
    case Digit(v) =>
      var at := LowPart(s.flags);
      if at == 0 {
        IdleTracks(s, c, v);
      } else if at == 1 {
        KindTracks(s, c, v);
      } else if at == 4 {
        CountTracks(s, c, v);
      } else if at == 6 {
        LowTracks(s, c, v);
      } else {
        HighTracks(s, c, v);
      }
  }

  lemma JunkTracks(s: State, c: Scan)
    requires Tracks(s, c)
    ensures Tracks(Read(s, Junk), After(c, Junk))
  {
  }

  /** The reader leaves its array exactly on the texts that say so. */
  lemma {:induction false} OverrunIff(s: State, c: Scan, toks: seq<Token>)
    requires Tracks(s, c) && AllDigits(toks)
    ensures Run(s, toks) == None <==> Overruns(c, toks)
    ensures Run(s, toks).Some? ==> Tracks(Run(s, toks).value, Scanned(c, toks))
    decreases |toks|
  {
    hide Read, After, Tracks, GoesIn, Touches;
    if toks != [] {
      var t := toks[0];
      TracksShaped(s, c);
      RoomShows(s, c, t);
      if GoesIn(c, t) && c.zeros > MAX_COUNT {
        assert OverrunsAt(c, toks, 0);
      } else {
        StepTracks(s, c, t);
        OverrunIff(Read(s, t), After(c, t), toks[1..]);
        OverrunsLater(c, toks);
      }
    }
  }

  lemma TracksShaped(s: State, c: Scan)
    requires Tracks(s, c)
    ensures Shaped(s)
  {
  }

  lemma OverrunsLater(c: Scan, toks: seq<Token>)
    requires toks != [] && !(GoesIn(c, toks[0]) && c.zeros > MAX_COUNT)
    ensures Overruns(c, toks) <==> Overruns(After(c, toks[0]), toks[1..])
  {
    hide After, GoesIn;
    var d, rest := After(c, toks[0]), toks[1..];
    forall i: nat | i < |rest| ensures Scanned(c, toks[..i + 1]) == Scanned(d, rest[..i]) && toks[i + 1] == rest[i] {
      assert toks[..i + 1][1..] == rest[..i];
    }
    if i: nat :| OverrunsAt(c, toks, i) {
      assert i > 0;
      assert toks[..i][1..] == rest[..i - 1];
      assert OverrunsAt(d, rest, i - 1);
    }
    if i: nat :| OverrunsAt(d, rest, i) {
      assert OverrunsAt(c, toks, i + 1);
    }
  }

  // ------------------------------------------------------------- texts without zero counts

  /** A mark, a kind, and a count of 00. */
  predicate ZeroCountAt(toks: seq<Token>, i: nat) {
    i + 3 < |toks| && toks[i] == Start && toks[i + 1].Digit? && toks[i + 2] == Digit(0) && toks[i + 3] == Digit(0)
  }

  ghost predicate NoZeroCounts(toks: seq<Token>) {
    forall i: nat :: !ZeroCountAt(toks, i)
  }

  lemma {:induction false} ScannedConcat(c: Scan, a: seq<Token>, b: seq<Token>)
    ensures Scanned(c, a + b) == Scanned(Scanned(c, a), b)
    decreases |a|
  {
    hide After;
    if a == [] {
      assert a + b == b;
    } else {
      assert (a + b)[1..] == a[1..] + b;
      ScannedConcat(After(c, a[0]), a[1..], b);
    }
  }

  lemma ScannedLast(c: Scan, toks: seq<Token>, i: nat)
    requires i < |toks|
    ensures Scanned(c, toks[..i + 1]) == After(Scanned(c, toks[..i]), toks[i])
  {
    assert toks[..i + 1] == toks[..i] + [toks[i]];
    ScannedConcat(c, toks[..i], [toks[i]]);
    assert [toks[i]][1..] == [];
  }

  /** c's digits are the last of the first i tokens, with a mark before them. */
  ghost predicate Ends(toks: seq<Token>, i: nat, c: Scan)
    requires i <= |toks|
  {
    c.marked ==>
      |c.digits| < i && toks[i - |c.digits| - 1] == Start &&
      forall k :: 0 <= k < |c.digits| ==> toks[i - |c.digits| + k] == Digit(c.digits[k])
  }

  lemma EndsNext(toks: seq<Token>, i: nat, c: Scan)
    requires i < |toks| && Ends(toks, i, c) && !toks[i].Junk? && NoZeroCounts(toks) && c.zeros == 0
    requires forall k :: 0 <= k < |toks| && toks[k].Digit? ==> toks[k].value < 16
    ensures Ends(toks, i + 1, After(c, toks[i])) && After(c, toks[i]).zeros == 0
  {
    var d := After(c, toks[i]);
    if toks[i].Digit? && c.marked {
      var n := |d.digits|;
      forall k | 0 <= k < n ensures toks[i + 1 - n + k] == Digit(d.digits[k]) {
        if k < |c.digits| {
          assert toks[i - |c.digits| + k] == Digit(c.digits[k]);
        }
      }
      if n >= 3 {
        assert toks[i + 1 - n] == Digit(d.digits[0]);
        assert toks[i + 1 - n + 1] == Digit(d.digits[1]);
        assert toks[i + 1 - n + 2] == Digit(d.digits[2]);
        assert !ZeroCountAt(toks, i - n);
      }
    }
  }

  lemma {:induction false} ZerosStayNone(toks: seq<Token>, i: nat)
    requires i <= |toks| && NoZeroCounts(toks) && AllDigits(toks) && Junk !in toks
    ensures var c := Scanned(FRESH, toks[..i]); Ends(toks, i, c) && c.zeros == 0
    decreases i
  {
    hide After, NoZeroCounts;
    if i > 0 {
      ZerosStayNone(toks, i - 1);
      assert toks[i - 1] in toks;
      EndsNext(toks, i - 1, Scanned(FRESH, toks[..i - 1]));
      ScannedLast(FRESH, toks, i - 1);
    }
  }

  /** Malformed, truncated or overlong: a text in which no count is 00 keeps the reader
      in its array. */
  lemma NoZeroCountsStay(toks: seq<Token>)
    requires NoZeroCounts(toks) && AllDigits(toks) && Junk !in toks
    ensures !Overruns(FRESH, toks)
  {
    hide NoZeroCounts, Scanned, After, GoesIn;
    forall i: nat ensures !OverrunsAt(FRESH, toks, i) {
      if i < |toks| {
        ZerosStayNone(toks, i);
      }
    }
  }

  // ------------------------------------------------------------- a text that overruns

  /** n times the characters S10000. */
  function ZeroText(n: nat): seq<byte> {
    if n == 0 then [] else ZeroText(n - 1) + [83, 49, 48, 48, 48, 48]
  }

  const ZERO_RECORD := [Start, Digit(1), Digit(0), Digit(0), Digit(0), Digit(0)]

  function ZeroRecords(n: nat): seq<Token> {
    if n == 0 then [] else ZeroRecords(n - 1) + ZERO_RECORD
  }

  lemma {:induction false} TokensConcat(a: seq<byte>, b: seq<byte>)
    ensures Tokens(a + b) == Tokens(a) + Tokens(b)
    decreases |a|
  {
    hide TokenOf;
    if a == [] {
      assert a + b == b;
    } else {
      assert (a + b)[1..] == a[1..] + b;
      TokensConcat(a[1..], b);
    }
  }

  lemma CharToken(c: byte)
    ensures TokenOf(c).Junk? ==> Tokens([c]) == []
    ensures !TokenOf(c).Junk? ==> Tokens([c]) == [TokenOf(c)]
  {
    hide TokenOf;
    assert [c][1..] == [];
    assert Tokens([]) == [];
  }

  lemma ThreeTokens()
    ensures Tokens([83, 49, 48]) == [Start, Digit(1), Digit(0)]
  {
    CharToken(83);
    CharToken(49);
    CharToken(48);
    TokensConcat([83], [49]);
    TokensConcat([83, 49], [48]);
    assert [83, 49, 48] == [83] + [49] + [48];
  }

  lemma RecordTokenised()
    ensures Tokens([83, 49, 48, 48, 48, 48]) == ZERO_RECORD
  {
    hide Tokens;
    ThreeTokens();
    CharToken(48);
    var a := [83, 49, 48];
    TokensConcat(a, [48]);
    TokensConcat(a + [48], [48]);
    TokensConcat(a + [48] + [48], [48]);
    assert [83, 49, 48, 48, 48, 48] == a + [48] + [48] + [48];
  }

  lemma {:induction false} ZeroTextTokens(n: nat)
    ensures Tokens(ZeroText(n)) == ZeroRecords(n)
  {
    if n > 0 {
      ZeroTextTokens(n - 1);
      RecordTokenised();
      TokensConcat(ZeroText(n - 1), [83, 49, 48, 48, 48, 48]);
    }
  }

  /** Each S10000 adds one. */
  lemma ZeroRecordScanned(c: Scan)
    ensures Scanned(c, ZERO_RECORD) == Scan(true, [1, 0, 0, 0, 0], c.zeros + 1)
  {
    hide After, Scanned;
    var z := Digit(0);
    assert ZERO_RECORD == [Start] + [Digit(1), z, z, z, z] && [Digit(1), z, z, z, z] == [Digit(1)] + [z, z, z, z];
    assert [z, z, z, z] == [z] + [z, z, z] && [z, z, z] == [z] + [z, z] && [z, z] == [z] + [z] && [z] == [z] + [];
    ScannedNext(c, Start, [Digit(1), z, z, z, z]);
    var c1 := After(c, Start);
    ScannedNext(c1, Digit(1), [z, z, z, z]);
    var c2 := After(c1, Digit(1));
    ScannedNext(c2, z, [z, z, z]);
    var c3 := After(c2, z);
    ScannedNext(c3, z, [z, z]);
    var c4 := After(c3, z);
    ScannedNext(c4, z, [z]);
    var c5 := After(c4, z);
    ScannedNext(c5, z, []);
    ScannedNothing(After(c5, z));
    ZeroRecordDigits(c);
  }

  lemma ScannedNext(c: Scan, t: Token, rest: seq<Token>)
    ensures Scanned(c, [t] + rest) == Scanned(After(c, t), rest)
  {
    assert ([t] + rest)[1..] == rest;
  }

  lemma ScannedNothing(c: Scan)
    ensures Scanned(c, []) == c
  {
  }

  lemma ZeroRecordDigits(c: Scan)
    ensures After(After(After(After(After(After(c, Start), Digit(1)), Digit(0)), Digit(0)), Digit(0)), Digit(0))
         == Scan(true, [1, 0, 0, 0, 0], c.zeros + 1)
  {
    var c2 := After(After(c, Start), Digit(1));
    assert c2 == Scan(true, [1], c.zeros);
    var c4 := After(After(c2, Digit(0)), Digit(0));
    assert c4 == Scan(true, [1, 0, 0], c.zeros);
    var c5 := After(c4, Digit(0));
    assert c5 == Scan(true, [1, 0, 0, 0], c.zeros);
  }

  lemma {:induction false} ZeroRecordsScanned(n: nat)
    ensures Scanned(FRESH, ZeroRecords(n)).zeros == n && |ZeroRecords(n)| == 6 * n && AllDigits(ZeroRecords(n))
  {
    if n > 0 {
      ZeroRecordsScanned(n - 1);
      ScannedConcat(FRESH, ZeroRecords(n - 1), ZERO_RECORD);
      ZeroRecordScanned(Scanned(FRESH, ZeroRecords(n - 1)));
    }
  }

  /** Between records, a count of 00 with one byte of data makes no call, and leaves the
      length one up. */
  lemma ZeroRecordCarries(s: State)
    requires Shaped(s) && s.byteCount == 0 && s.length <= MAX_COUNT
    ensures AllDigits(ZERO_RECORD)
    ensures var r := Run(s, ZERO_RECORD);
            r.Some? && r.value.length == s.length + 1 && r.value.byteCount == 0 &&
            r.value.log == s.log && r.value.mem == s.mem
  {
    hide Read, HighPart, LowPart;
    MarkAlone(s);
    var e := Read(s, Start);
    KindRead(e, 1);
    FlagParts(1, 3);
    var typed := Read(e, Digit(1));
    HighDigit(typed, 0);
    CountDigit(Read(typed, Digit(0)), 0, 0);
    UnfoldPair(typed, 0);
    var counted := Read(Read(typed, Digit(0)), Digit(0));
    HighDigit(counted, 0);
    LowDigit(Read(counted, Digit(0)), 0, 0);
    UnfoldPair(counted, 0);
    RunConcat(typed, Pair(0), Pair(0));
    var toks := ZERO_RECORD;
    assert toks[1..][0] == Digit(1) && toks[1..][1..] == Pair(0) + Pair(0);
    assert Run(s, toks) == Run(e, toks[1..]) == Run(typed, Pair(0) + Pair(0));
  }

  lemma MarkAlone(s: State)
    requires Shaped(s) && s.byteCount == 0
    ensures Read(s, Start) == s.(flags := HighPart(s.flags) + 1) && LowPart(HighPart(s.flags) + 1) == 1
  {
    FlagSplit(s.flags);
    FlagParts(s.flags / 16, 1);
  }

  /** How many of the tokens are marks. */
  function Marks(toks: seq<Token>): nat {
    if toks == [] then 0 else (if toks[0].Start? then 1 else 0) + Marks(toks[1..])
  }

  /** A record that can still turn out to be one with a zero count and data. */
  function Open(c: Scan): nat {
    if c.marked && |c.digits| < 5 then 1 else 0
  }

  lemma {:induction false} OneAMark(c: Scan, toks: seq<Token>)
    ensures Scanned(c, toks).zeros + Open(Scanned(c, toks)) <= c.zeros + Open(c) + Marks(toks)
    decreases |toks|
  {
    if toks != [] {
      OneAMark(After(c, toks[0]), toks[1..]);
    }
  }

  lemma {:induction false} MarksConcat(a: seq<Token>, b: seq<Token>)
    ensures Marks(a + b) == Marks(a) + Marks(b)
    decreases |a|
  {
    if a == [] {
      assert a + b == b;
    } else {
      assert (a + b)[1..] == a[1..] + b;
      MarksConcat(a[1..], b);
    }
  }

  lemma {:induction false} ZeroRecordsMarks(n: nat)
    ensures Marks(ZeroRecords(n)) == n
  {
    if n > 0 {
      ZeroRecordsMarks(n - 1);
      MarksConcat(ZeroRecords(n - 1), ZERO_RECORD);
      var r := ZERO_RECORD;
      assert Marks(r) == 1 by {
        assert r == [Start] + r[1..];
        assert r[1..][1..] == r[2..] && r[2..][1..] == r[3..] && r[3..][1..] == r[4..];
        assert r[4..][1..] == r[5..] && r[5..][1..] == [];
        assert Marks(r[3..]) == Marks(r[4..]) == Marks(r[5..]) == 0;
      }
    }
  }

  /** Before any position of the text at most n zero counts have gone by. */
  lemma FewZeros(n: nat, i: nat)
    requires var toks := ZeroRecords(n) + [Start, Digit(1), Digit(0)]; i < |toks| && toks[i].Digit?
    ensures Scanned(FRESH, (ZeroRecords(n) + [Start, Digit(1), Digit(0)])[..i]).zeros <= n
  {
    var zs, tail := ZeroRecords(n), [Start, Digit(1), Digit(0)];
    var p := (zs + tail)[..i];
    ZeroRecordsMarks(n);
    OneAMark(FRESH, p);
    if i <= |zs| {
      assert zs == p + zs[i..];
      MarksConcat(p, zs[i..]);
    } else {
      var q := tail[..i - |zs|];
      assert p == zs + q;
      ZeroRecordsScanned(n);
      ScannedConcat(FRESH, zs, q);
      assert q == [Start] || q == [Start, Digit(1)];
      var c := Scanned(FRESH, zs);
      assert [Start, Digit(1)][1..] == [Digit(1)] && [Digit(1)][1..] == [] && [Start][1..] == [];
      assert Scanned(c, [Start]) == Scanned(After(c, Start), []) == After(c, Start);
      assert Scanned(c, [Start, Digit(1)]) == Scanned(After(c, Start), [Digit(1)]);
    }
  }

  /** Thirty-eight times S10000 and then the first count digit of any record: that digit
      goes past the end. One record fewer and it does not. */
  lemma ZeroRecordsOverrunIff(s: State, n: nat)
    requires Tracks(s, FRESH)
    ensures RunChars(s, ZeroText(n) + [83, 49, 48]) == None <==> n > MAX_COUNT
  {
    hide Run, RunChars, Tracks, After, Scanned, GoesIn;
    var zs, tail := ZeroRecords(n), [Start, Digit(1), Digit(0)];
    var toks := zs + tail;
    TokensConcat(ZeroText(n), [83, 49, 48]);
    ZeroTextTokens(n);
    ThreeTokens();
    TracksShaped(s, FRESH);
    JunkIgnored(s, ZeroText(n) + [83, 49, 48]);
    OverrunIff(s, FRESH, toks);
    if n > MAX_COUNT {
      LastDigitIn(n);
    } else {
      forall i: nat ensures !OverrunsAt(FRESH, toks, i) {
        if i < |toks| {
          DigitsOnly(Scanned(FRESH, toks[..i]), toks[i]);
          if toks[i].Digit? {
            FewZeros(n, i);
          }
        }
      }
    }
  }

  lemma DigitsOnly(c: Scan, t: Token)
    ensures GoesIn(c, t) ==> t.Digit?
  {
  }

  lemma LastDigitIn(n: nat)
    requires n > MAX_COUNT
    ensures Overruns(FRESH, ZeroRecords(n) + [Start, Digit(1), Digit(0)])
  {
    var zs, tail := ZeroRecords(n), [Start, Digit(1), Digit(0)];
    var toks, i := zs + tail, |zs| + 2;
    assert toks[..i] == zs + [Start, Digit(1)];
    ZeroRecordsScanned(n);
    var c := Scanned(FRESH, zs);
    ScannedConcat(FRESH, zs, [Start, Digit(1)]);
    assert [Start, Digit(1)][1..] == [Digit(1)] && [Digit(1)][1..] == [];
    assert Scanned(c, [Start, Digit(1)]) == Scanned(After(c, Start), [Digit(1)])
        == Scanned(After(After(c, Start), Digit(1)), []);
    assert OverrunsAt(FRESH, toks, i);
  }

  // ------------------------------------------------------------- texts as characters

  lemma {:induction false} TokensClean(chars: seq<byte>)
    ensures Junk !in Tokens(chars)
    decreases |chars|
  {
    hide TokenOf;
    if chars != [] {
      TokensClean(chars[1..]);
    }
  }

  /** The exact condition on characters: the reader leaves its array if and only if the
      text says so. */
  lemma TextOverrunIff(s: State, c: Scan, chars: seq<byte>)
    requires Tracks(s, c)
    ensures RunChars(s, chars) == None <==> Overruns(c, Tokens(chars))
  {
    hide Run, RunChars, Tracks, Overruns;
    TracksShaped(s, c);
    JunkIgnored(s, chars);
    OverrunIff(s, c, Tokens(chars));
  }

  /** Text in which no count is 00 is read to its end. */
  lemma TextStays(s: State, chars: seq<byte>)
    requires Tracks(s, FRESH) && NoZeroCounts(Tokens(chars))
    ensures RunChars(s, chars).Some?
  {
    hide Run, RunChars, Tracks, Overruns, NoZeroCounts;
    TracksShaped(s, FRESH);
    TokensAreDigits(chars);
    TokensClean(chars);
    NoZeroCountsStay(Tokens(chars));
    TextOverrunIff(s, FRESH, chars);
  }
}
