/** Whole S-record streams: what is called back, what a changed byte does, and where the
    payloads end up (boot/kk_srec.c, boot/boot_code.c). */
module SrecStream {
  import opened Words
  import opened Srec

  datatype Record = Record(kind: nat, address: seq<byte>, payload: seq<byte>)

  function Count(r: Record): nat {
    |r.address| + |r.payload| + 1
  }

  predicate WellFormed(r: Record) {
    r.kind < 16 && |r.address| == AddressBytes(r.kind) && Count(r) <= MAX_COUNT
  }

  /** The bytes after the count: the last one makes the sum come out. */
  function Body(r: Record): (body: seq<byte>)
    ensures |body| == Count(r)
  {
    r.address + r.payload + [255 - (Count(r) + Sum(r.address + r.payload)) % 256]
  }

  function TokensOf(rs: seq<Record>): (toks: seq<Token>)
    requires forall i :: 0 <= i < |rs| ==> WellFormed(rs[i])
    ensures AllDigits(toks)
  {
    if rs == [] then []
    else assert WellFormed(rs[0]); RecordTokens(rs[0].kind, Body(rs[0])) + TokensOf(rs[1..])
  }

  /** What a record asks for, free of any checksum error. */
  function CallFor(r: Record): Call
    requires WellFormed(r)
  {
    Call(r.kind, Address(r.address), r.payload, Count(r), Count(r), 0)
  }

  function CallsFor(rs: seq<Record>): (cs: seq<Call>)
    requires forall i :: 0 <= i < |rs| ==> WellFormed(rs[i])
    ensures |cs| == |rs|
  {
    seq(|rs|, i requires 0 <= i < |rs| => CallFor(rs[i]))
  }

  /** Memory after the first n calls. */
  function Replay(m: seq<byte>, cs: seq<Call>, n: nat): (r: seq<byte>)
    requires |m| == TWO32 && n <= |cs|
    ensures |r| == TWO32
    decreases n
  {
    if n == 0 then m else Stored(Replay(m, cs, n - 1), cs[n - 1])
  }

  // ------------------------------------------------------------- checksums

  lemma {:induction false} SumOfUpdate(s: seq<byte>, i: nat, b: byte)
    requires i < |s|
    ensures Sum(s[i := b]) == Sum(s) - s[i] + b
    decreases |s|
  {
    var n := |s| - 1;
    if i < n {
      SumOfUpdate(s[..n], i, b);
      assert s[i := b][..n] == s[..n][i := b];
    } else {
      assert s[i := b][..n] == s[..n];
    }
  }

  lemma BodyChecks(r: Record)
    requires WellFormed(r)
    ensures Sized(r.kind, Body(r)) && CheckSum(Body(r)) == 0 && RecordCall(r.kind, Body(r)) == CallFor(r)
  {
    hide AddressBytes, Address;
    var body := Body(r);
    assert body[..|body| - 1] == r.address + r.payload;
    assert body[..|r.address|] == r.address && body[|r.address|..|body| - 1] == r.payload;
  }

  lemma NotAMultiple(x: nat, a: byte, b: byte)
    requires x % 256 == 0 && a != b && x + b - a >= 0
    ensures (x + b - a) % 256 != 0
  {
  }

  /** One changed byte of address, payload or checksum always shows. */
  lemma ChangedByteShows(r: Record, i: nat, b: byte)
    requires WellFormed(r) && i < Count(r) && b != Body(r)[i]
    ensures Sized(r.kind, Body(r)[i := b]) && RecordCall(r.kind, Body(r)[i := b]).checksumError != 0
  {
    hide Address, Sum, Body;
    BodyChecks(r);
    var body := Body(r);
    SumOfUpdate(body, i, b);
    NotAMultiple(|body| + Sum(body) + 1, body[i], b);
  }

  // ------------------------------------------------------------- whole streams

  /** One call a record, in order, whatever insignificant characters are mixed in. */
  lemma {:induction false} RecordsRead(s: State, rs: seq<Record>)
    requires Shaped(s) && s.byteCount == 0 && s.length == 0
    requires forall i :: 0 <= i < |rs| ==> WellFormed(rs[i])
    ensures var r := Run(s, TokensOf(rs));
            r.Some? && r.value.byteCount == 0 && r.value.length == 0 && r.value.log == s.log + CallsFor(rs)
    decreases |rs|
  {
    hide Run, RecordTokens, CallFor, RecordCall, Body, WellFormed, Shaped;
    NothingRead(s);
    if rs != [] {
      var head := rs[0];
      assert WellFormed(head);
      BodyChecks(head);
      OneRecordRead(s, head);
      var t := Run(s, RecordTokens(head.kind, Body(head))).value;
      RunConcat(s, RecordTokens(head.kind, Body(head)), TokensOf(rs[1..]));
      RecordsRead(t, rs[1..]);
      assert CallsFor(rs) == [CallFor(head)] + CallsFor(rs[1..]);
    }
  }

  lemma NothingRead(s: State)
    requires Shaped(s)
    ensures Run(s, []) == Some(s)
  {
  }

  lemma OneRecordRead(s: State, r: Record)
    requires Shaped(s) && s.byteCount == 0 && s.length == 0 && WellFormed(r)
    ensures var t := Run(s, RecordTokens(r.kind, Body(r)));
            t.Some? && t.value.byteCount == 0 && t.value.length == 0 &&
            t.value.log == s.log + [CallFor(r)] && t.value.mem == Stored(s.mem, CallFor(r))
  {
    hide Run, Read, RecordTokens, RecordCall, BodyCall, CallFor, Body, Stored;
    BodyChecks(r);
    MarkEndsNothing(s);
    RecordRead(s, r.kind, Body(r));
  }

  lemma MarkEndsNothing(s: State)
    requires Shaped(s) && s.byteCount == 0 && s.length == 0
    ensures Read(s, Start).log == s.log && Read(s, Start).mem == s.mem
  {
  }

  lemma {:induction false} ReplayFrom(m: seq<byte>, cs: seq<Call>, n: nat)
    requires |m| == TWO32 && 0 < n <= |cs|
    ensures Replay(m, cs, n) == Replay(Stored(m, cs[0]), cs[1..], n - 1)
    decreases n
  {
    hide Stored;
    if n > 1 {
      ReplayFrom(m, cs, n - 1);
    }
  }

  /** The memory is what the calls' stores make of it. */
  lemma {:induction false} RecordsStore(s: State, rs: seq<Record>)
    requires Shaped(s) && s.byteCount == 0 && s.length == 0
    requires forall i :: 0 <= i < |rs| ==> WellFormed(rs[i])
    ensures var r := Run(s, TokensOf(rs)); r.Some? && r.value.mem == Replay(s.mem, CallsFor(rs), |rs|)
    decreases |rs|
  {
    hide Run, RecordTokens, RecordCall, CallFor, Body, Stored, WellFormed;
    NothingRead(s);
    if rs != [] {
      var head := rs[0];
      assert WellFormed(head);
      BodyChecks(head);
      OneRecordRead(s, head);
      var t := Run(s, RecordTokens(head.kind, Body(head))).value;
      RunConcat(s, RecordTokens(head.kind, Body(head)), TokensOf(rs[1..]));
      RecordsStore(t, rs[1..]);
      assert CallsFor(rs)[1..] == CallsFor(rs[1..]);
      ReplayFrom(s.mem, CallsFor(rs), |rs|);
    }
  }

  /** `SREC_IS_TERMINATION`: the callback jumps to the address and never returns. */
  predicate IsTermination(kind: nat) {
    kind >= 7
  }

  /** A program in S-records: nothing comes after a termination record. */
  ghost predicate Program(rs: seq<Record>) {
    (forall i :: 0 <= i < |rs| ==> WellFormed(rs[i])) &&
    (forall i :: 0 <= i < |rs| - 1 ==> !IsTermination(rs[i].kind))
  }

  /** Any text whose hex digits and marks are those of the records, in either case and
      with anything else in between. */
  lemma StreamRead(s: State, chars: seq<byte>, rs: seq<Record>)
    requires Shaped(s) && s.byteCount == 0 && s.length == 0
    requires Program(rs) && Tokens(chars) == TokensOf(rs)
    ensures var r := RunChars(s, chars);
            r.Some? && r.value.log == s.log + CallsFor(rs) && r.value.mem == Replay(s.mem, CallsFor(rs), |rs|)
  {
    hide Run, RunChars, Tokens, TokensOf;
    JunkIgnored(s, chars);
    RecordsRead(s, rs);
    RecordsStore(s, rs);
  }

  // ------------------------------------------------------------- where the payloads end up

  /** The bytes a call stores: header, count and termination records store none. */
  function DataOf(c: Call): seq<byte> {
    if IsData(c.kind) then c.payload else []
  }

  /** The stores do not wrap around the address space. */
  predicate Fits(c: Call) {
    DataOf(c) != [] ==> c.address + |DataOf(c)| + 3 <= TWO32
  }

  predicate InPayload(c: Call, x: int) {
    c.address <= x < c.address + |DataOf(c)|
  }

  /** The bytes past the payload that its last word store clears. */
  predicate InTail(c: Call, x: int) {
    DataOf(c) != [] && c.address + |DataOf(c)| <= x < c.address + |DataOf(c)| + 3
  }

  lemma {:induction false} BytesStored(m: seq<byte>, a: word, p: seq<byte>, n: nat, x: nat)
    requires |m| == TWO32 && n <= |p| && a + |p| + 3 <= TWO32 && x < TWO32
    ensures StoreBytes(m, a, p, n)[x]
         == if a <= x < a + n then p[x - a] else if n > 0 && a + n <= x < a + n + 3 then 0 else m[x]
    decreases n
  {
    hide StoreWord, ToWord;
    if n > 0 {
      BytesStored(m, a, p, n - 1, x);
      NoWrap(a + (n - 1));
      WordStored(StoreBytes(m, a, p, n - 1), a + (n - 1), p[n - 1], x);
    }
  }

  lemma NoWrap(x: nat)
    requires x < TWO32
    ensures ToWord(x) == x
  {
  }

  lemma WordStored(m: seq<byte>, a: word, b: byte, x: nat)
    requires |m| == TWO32 && a + 3 < TWO32 && x < TWO32
    ensures StoreWord(m, a, b)[x] == if x == a then b else if a < x < a + 4 then 0 else m[x]
  {
    NoWrap(a + 1);
    NoWrap(a + 2);
    NoWrap(a + 3);
  }

  lemma NothingStored(m: seq<byte>, c: Call)
    requires |m| == TWO32 && DataOf(c) == []
    ensures Stored(m, c) == m
  {
  }

  lemma StoredAt(m: seq<byte>, c: Call, x: nat)
    requires |m| == TWO32 && Fits(c) && x < TWO32
    ensures Stored(m, c)[x] == if InPayload(c, x) then DataOf(c)[x - c.address] else if InTail(c, x) then 0 else m[x]
  {
    hide StoreBytes;
    if DataOf(c) != [] {
      BytesStored(m, c.address, c.payload, |c.payload|, x);
    } else {
      NothingStored(m, c);
    }
  }

  ghost predicate AllFit(cs: seq<Call>) {
    forall i :: 0 <= i < |cs| ==> Fits(cs[i])
  }

  ghost predicate Disjoint(cs: seq<Call>) {
    forall i, j :: 0 <= i < j < |cs| ==>
      DataOf(cs[i]) == [] || DataOf(cs[j]) == [] ||
      cs[i].address + |DataOf(cs[i])| <= cs[j].address || cs[j].address + |DataOf(cs[j])| <= cs[i].address
  }

  ghost predicate Ascending(cs: seq<Call>) {
    forall i, j :: 0 <= i < j < |cs| ==>
      DataOf(cs[i]) == [] || DataOf(cs[j]) == [] || cs[i].address + |DataOf(cs[i])| <= cs[j].address
  }

  /** Some call after the i-th, among the first n, clears x. */
  ghost predicate ClearedAfter(cs: seq<Call>, i: nat, n: nat, x: int) {
    exists j :: i < j < n <= |cs| && InTail(cs[j], x)
  }

  ghost predicate InPlace(m: seq<byte>, c: Call)
    requires |m| == TWO32 && Fits(c)
  {
    forall k :: 0 <= k < |DataOf(c)| ==> m[c.address + k] == DataOf(c)[k]
  }

  /** What has become of a payload byte after n calls. */
  lemma {:induction false} PayloadByteAfter(m: seq<byte>, cs: seq<Call>, i: nat, n: nat, k: nat)
    requires |m| == TWO32 && AllFit(cs) && Disjoint(cs) && i < n <= |cs| && k < |DataOf(cs[i])|
    ensures var x := cs[i].address + k;
            x < TWO32 && Replay(m, cs, n)[x] == if ClearedAfter(cs, i, n, x) then 0 else DataOf(cs[i])[k]
    decreases n
  {
    hide Stored, DataOf;
    var x := cs[i].address + k;
    StoredAt(Replay(m, cs, n - 1), cs[n - 1], x);
    if i < n - 1 {
      PayloadByteAfter(m, cs, i, n - 1, k);
      assert !InPayload(cs[n - 1], x);
      assert ClearedAfter(cs, i, n, x) <==> ClearedAfter(cs, i, n - 1, x) || InTail(cs[n - 1], x);
    }
  }

  /** No later call's last store clears a nonzero byte of an earlier payload. */
  ghost predicate OnlyZerosCleared(cs: seq<Call>) {
    forall i, j, k ::
      0 <= i < j < |cs| && 0 <= k < |DataOf(cs[i])| && InTail(cs[j], cs[i].address + k) ==> DataOf(cs[i])[k] == 0
  }

  /** Every payload survives exactly when no later record's last store clears a nonzero
      byte of an earlier one. */
  lemma PayloadsSurviveIff(m: seq<byte>, cs: seq<Call>)
    requires |m| == TWO32 && AllFit(cs) && Disjoint(cs)
    ensures (forall i :: 0 <= i < |cs| ==> InPlace(Replay(m, cs, |cs|), cs[i])) <==> OnlyZerosCleared(cs)
  {
    hide Replay, InTail, Disjoint;
    var n := |cs|;
    var r := Replay(m, cs, n);
    if forall i :: 0 <= i < n ==> InPlace(r, cs[i]) {
      forall i, j, k | 0 <= i < j < n && 0 <= k < |DataOf(cs[i])| && InTail(cs[j], cs[i].address + k)
        ensures DataOf(cs[i])[k] == 0
      {
        PayloadByteAfter(m, cs, i, n, k);
        assert InPlace(r, cs[i]) && ClearedAfter(cs, i, n, cs[i].address + k);
      }
    }
    if OnlyZerosCleared(cs) {
      forall i | 0 <= i < n ensures InPlace(r, cs[i]) {
        forall k | 0 <= k < |DataOf(cs[i])| ensures r[cs[i].address + k] == DataOf(cs[i])[k] {
          PayloadByteAfter(m, cs, i, n, k);
        }
      }
    }
  }

  /** Records in ascending order leave every payload byte in place. */
  lemma AscendingSurvives(m: seq<byte>, cs: seq<Call>)
    requires |m| == TWO32 && AllFit(cs) && Ascending(cs)
    ensures forall i :: 0 <= i < |cs| ==> InPlace(Replay(m, cs, |cs|), cs[i])
  {
    hide Replay;
    PayloadsSurviveIff(m, cs);
  }

  /** In descending order a record can wipe out the start of its neighbour. */
  lemma DescendingLoses(m: seq<byte>)
    requires |m| == TWO32
    ensures var cs := [Call(3, 0x1C00_0004, [1], 6, 6, 0), Call(3, 0x1C00_0000, [5, 6, 7, 8], 9, 9, 0)];
            AllFit(cs) && Disjoint(cs) && !InPlace(Replay(m, cs, 2), cs[0])
  {
    hide Replay, InPlace;
    var cs := [Call(3, 0x1C00_0004, [1], 6, 6, 0), Call(3, 0x1C00_0000, [5, 6, 7, 8], 9, 9, 0)];
    PayloadByteAfter(m, cs, 0, 2, 0);
    assert InTail(cs[1], 0x1C00_0004);
    assert ClearedAfter(cs, 0, 2, 0x1C00_0004);
    NotInPlace(Replay(m, cs, 2), cs[0], 0);
  }

  lemma NotInPlace(m: seq<byte>, c: Call, k: nat)
    requires |m| == TWO32 && Fits(c) && k < |DataOf(c)| && m[c.address + k] != DataOf(c)[k]
    ensures !InPlace(m, c)
  {
  }

  /** A stream of well-formed records, its data in ascending order, loads what it says. */
  lemma StreamLoads(s: State, chars: seq<byte>, rs: seq<Record>)
    requires Shaped(s) && s.byteCount == 0 && s.length == 0
    requires Program(rs) && Tokens(chars) == TokensOf(rs) && AllFit(CallsFor(rs)) && Ascending(CallsFor(rs))
    ensures var r := RunChars(s, chars);
            r.Some? && forall i :: 0 <= i < |rs| ==> InPlace(r.value.mem, CallsFor(rs)[i])
  {
    hide Replay, InPlace, Fits, Ascending, CallFor, RunChars, Tokens, TokensOf;
    StreamRead(s, chars, rs);
    AscendingSurvives(s.mem, CallsFor(rs));
  }
}
