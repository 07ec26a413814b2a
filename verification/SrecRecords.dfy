/** One S-record, from its characters to the callback and to memory, in the format's own
    terms (boot/kk_srec.c, boot/kk_srec.h, boot/boot_code.c). */
module SrecRecords {
  import opened Words
  import opened Srec
  import opened SrecStream

  const UPPER := "0123456789ABCDEF"
  const LOWER := "0123456789abcdef"

  /** c is the hex digit v, in either case. */
  predicate IsHex(c: byte, v: nat) {
    v < 16 && (c == UPPER[v] as int || c == LOWER[v] as int)
  }

  /** The reader's view of a character: the hex digits have their values, 83 is the mark,
      and the rest is ignored. */
  lemma CharacterIs(c: byte)
    ensures forall v: nat :: IsHex(c, v) ==> TokenOf(c) == Digit(v)
    ensures TokenOf(83) == Start
    ensures c != 83 && (forall v: nat :: v < 16 ==> !IsHex(c, v)) ==> TokenOf(c) == Junk
  {
    hide UPPER, LOWER;
    forall v: nat | v < 16
      ensures IsHex(c, v) <==> c == (if v < 10 then 48 + v else 55 + v) || c == (if v < 10 then 48 + v else 87 + v)
    {
      HexChars(v);
    }
    if TokenOf(c).Digit? {
      assert IsHex(c, TokenOf(c).value);
    }
  }

  lemma HexChars(v: nat)
    requires v < 16
    ensures UPPER[v] as int == if v < 10 then 48 + v else 55 + v
    ensures LOWER[v] as int == if v < 10 then 48 + v else 87 + v
  {
  }

  /** Two characters for every byte. */
  ghost predicate Writes(chars: seq<byte>, bytes: seq<byte>) {
    |chars| == 2 * |bytes| &&
    forall i :: 0 <= i < |bytes| ==> IsHex(chars[2 * i], bytes[i] / 16) && IsHex(chars[2 * i + 1], bytes[i] % 16)
  }

  lemma {:induction false} WrittenTokens(chars: seq<byte>, bytes: seq<byte>)
    requires Writes(chars, bytes)
    ensures Tokens(chars) == Digits(bytes)
    decreases |bytes|
  {
    hide IsHex, TokenOf, Tokens;
    if bytes == [] {
      NoTokens(chars);
    } else {
      assert IsHex(chars[2 * 0], bytes[0] / 16) && IsHex(chars[2 * 0 + 1], bytes[0] % 16);
      CharacterIs(chars[0]);
      CharacterIs(chars[1]);
      RestWritten(chars, bytes);
      WrittenTokens(chars[2..], bytes[1..]);
      NextTokens(chars);
    }
  }

  lemma NoTokens(chars: seq<byte>)
    requires chars == []
    ensures Tokens(chars) == []
  {
  }

  lemma {:induction false} NextTokens(chars: seq<byte>)
    requires |chars| >= 2 && !TokenOf(chars[0]).Junk? && !TokenOf(chars[1]).Junk?
    ensures Tokens(chars) == [TokenOf(chars[0]), TokenOf(chars[1])] + Tokens(chars[2..])
  {
    hide TokenOf, Tokens;
    var rest := chars[2..];
    assert chars == [chars[0]] + ([chars[1]] + rest);
    OneToken(chars[0], [chars[1]] + rest);
    OneToken(chars[1], rest);
  }

  lemma {:induction false} OneToken(c: byte, rest: seq<byte>)
    requires !TokenOf(c).Junk?
    ensures Tokens([c] + rest) == [TokenOf(c)] + Tokens(rest)
  {
    hide TokenOf;
    assert ([c] + rest)[1..] == rest;
  }

  lemma {:induction false} RestWritten(chars: seq<byte>, bytes: seq<byte>)
    requires Writes(chars, bytes) && bytes != []
    ensures Writes(chars[2..], bytes[1..])
  {
    hide IsHex;
    forall i | 0 <= i < |bytes| - 1
      ensures IsHex(chars[2..][2 * i], bytes[1..][i] / 16) && IsHex(chars[2..][2 * i + 1], bytes[1..][i] % 16)
    {
      assert IsHex(chars[2 * (i + 1)], bytes[i + 1] / 16) && IsHex(chars[2 * (i + 1) + 1], bytes[i + 1] % 16);
    }
  }

  /** The width of the address field. */
  lemma AddressWidths()
    ensures AddressBytes(0) == AddressBytes(1) == AddressBytes(5) == AddressBytes(9) == 2
    ensures AddressBytes(2) == AddressBytes(4) == AddressBytes(6) == AddressBytes(8) == 3
    ensures AddressBytes(3) == AddressBytes(7) == 4
  {
  }

  /** Address bytes of the right number for the kind, the first the most significant. */
  predicate AddressOf(kind: nat, bytes: seq<byte>, value: int) {
    if kind in {0, 1, 5, 9} then |bytes| == 2 && value == 256 * (bytes[0] as int) + bytes[1]
    else if kind in {2, 4, 6, 8} then
      |bytes| == 3 && value == 65536 * (bytes[0] as int) + 256 * (bytes[1] as int) + bytes[2]
    else kind in {3, 7} && |bytes| == 4 &&
         value == 16777216 * (bytes[0] as int) + 65536 * (bytes[1] as int) + 256 * (bytes[2] as int) + bytes[3]
  }

  lemma BigEndianTwo(a: seq<byte>)
    requires |a| == 2
    ensures BigEndian(a) == 256 * (a[0] as int) + a[1]
  {
    assert a[..1][..0] == [];
    assert BigEndian(a[..1]) == 256 * BigEndian([]) + a[0];
  }

  lemma BigEndianThree(a: seq<byte>)
    requires |a| == 3
    ensures BigEndian(a) == 65536 * (a[0] as int) + 256 * (a[1] as int) + a[2]
  {
    BigEndianTwo(a[..2]);
  }

  lemma BigEndianFour(a: seq<byte>)
    requires |a| == 4
    ensures BigEndian(a) == 16777216 * (a[0] as int) + 65536 * (a[1] as int) + 256 * (a[2] as int) + a[3]
  {
    BigEndianThree(a[..3]);
  }

  lemma AddressDecoded(kind: nat, bytes: seq<byte>, value: int)
    requires AddressOf(kind, bytes, value)
    ensures kind < 10 && |bytes| == AddressBytes(kind) && 0 <= value < TWO32 && Address(bytes) == value
  {
    hide AddressBytes, BigEndian;
    AddressWidths();
    if |bytes| == 2 {
      BigEndianTwo(bytes);
    } else if |bytes| == 3 {
      BigEndianThree(bytes);
    } else {
      BigEndianFour(bytes);
    }
  }

  /** The sum of bytes. */
  function Total(s: seq<byte>): nat {
    if s == [] then 0 else s[0] + Total(s[1..])
  }

  lemma {:induction false} TotalIsSum(s: seq<byte>)
    ensures Total(s) == Sum(s)
    decreases |s|
  {
    if |s| > 1 {
      var n := |s| - 1;
      TotalIsSum(s[..n]);
      TotalIsSum(s[1..]);
      TotalIsSum(s[1..][..n - 1]);
      assert s[1..][..n - 1] == s[..n][1..];
    } else if |s| == 1 {
      assert s[1..] == [] && s[..0] == [];
    }
  }

  /** The characters of a record: S, the kind, and in hex the count, the address, the
      payload and the check byte. */
  ghost predicate IsRecord(chars: seq<byte>, kind: nat, address: seq<byte>, payload: seq<byte>, check: byte) {
    var n := |address| + |payload| + 1;
    kind < 10 && n <= 37 && |chars| >= 2 && chars[0] == 83 && chars[1] == 48 + kind &&
    Writes(chars[2..], [n] + address + payload + [check])
  }

  lemma RecordCharacters(chars: seq<byte>, kind: nat, address: seq<byte>, payload: seq<byte>, check: byte)
    requires IsRecord(chars, kind, address, payload, check)
    ensures Tokens(chars) == RecordTokens(kind, address + payload + [check])
  {
    hide IsHex, Digits, TokenOf, Tokens, UPPER, LOWER;
    var body := address + payload + [check];
    var n := |body|;
    assert [n] + address + payload + [check] == [n] + body;
    WrittenTokens(chars[2..], [n] + body);
    CharacterIs(83);
    KindDigit(kind);
    NextTokens(chars);
    DigitsFirst(n, body);
    assert [Start, Digit(kind)] + Pair(n) + Digits(body) == [Start, Digit(kind)] + (Pair(n) + Digits(body));
  }

  lemma KindDigit(kind: nat)
    requires kind < 10
    ensures TokenOf(48 + kind) == Digit(kind)
  {
  }

  lemma DigitsFirst(b: byte, bs: seq<byte>)
    ensures Digits([b] + bs) == Pair(b) + Digits(bs)
  {
    assert ([b] + bs)[1..] == bs;
  }

  /** Between records, one record makes one call: with its kind, the address its bytes
      stand for, its payload, and a checksum error of 0 exactly when count, bytes and check
      byte add up to 255 modulo 256. */
  lemma RecordDecoded(s: State, chars: seq<byte>, kind: nat, address: seq<byte>, value: int, payload: seq<byte>,
                      check: byte)
    requires Shaped(s) && s.byteCount == 0 && s.length == 0
    requires IsRecord(chars, kind, address, payload, check) && AddressOf(kind, address, value)
    ensures var n := |address| + |payload| + 1;
            var error := (n + Total(address) + Total(payload) + check + 1) % 256;
            var r := RunChars(s, chars);
            r.Some? && r.value.byteCount == 0 && r.value.length == 0 &&
            r.value.log == s.log + [Call(kind, value, payload, n, n, error)] &&
            r.value.mem == Stored(s.mem, Call(kind, value, payload, n, n, error))
  {
    hide Run, RunChars, Tokens, RecordTokens, AddressBytes, Read, RecordCall, Stored, IsRecord, BodyCall, Total;
    var body := address + payload + [check];
    RecordLength(chars, kind, address, payload, check);
    RecordCharacters(chars, kind, address, payload, check);
    JunkIgnored(s, chars);
    CallDecoded(kind, address, value, payload, check);
    RecordRead(s, kind, body);
    MarkEndsNothing(s);
  }

  lemma RecordLength(chars: seq<byte>, kind: nat, address: seq<byte>, payload: seq<byte>, check: byte)
    requires IsRecord(chars, kind, address, payload, check)
    ensures kind < 10 && |address| + |payload| + 1 <= 37
  {
  }

  /** The call of a record's bytes. */
  lemma CallDecoded(kind: nat, address: seq<byte>, value: int, payload: seq<byte>, check: byte)
    requires AddressOf(kind, address, value) && |address| + |payload| + 1 <= 37
    ensures var n := |address| + |payload| + 1; var body := address + payload + [check];
            Sized(kind, body) && 0 <= value < TWO32 &&
            RecordCall(kind, body) ==
            Call(kind, value, payload, n, n, (n + Total(address) + Total(payload) + check + 1) % 256)
  {
    hide Address, AddressBytes, Sum, Total, AddressOf;
    var body := address + payload + [check];
    AddressDecoded(kind, address, value);
    assert body[..|address|] == address && body[|address|..|body| - 1] == payload;
    BodyTotal(address, payload, check);
  }

  lemma BodyTotal(address: seq<byte>, payload: seq<byte>, check: byte)
    ensures Sum(address + payload + [check]) == Total(address) + Total(payload) + check
  {
    TotalIsSum(address + payload + [check]);
    TotalOf(address + payload, [check]);
    TotalOf(address, payload);
    assert [check][1..] == [];
    assert Total([check]) == check;
  }

  lemma {:induction false} TotalOf(a: seq<byte>, b: seq<byte>)
    ensures Total(a + b) == Total(a) + Total(b)
    decreases |a|
  {
    if a == [] {
      assert a + b == b;
    } else {
      assert (a + b)[1..] == a[1..] + b;
      TotalOf(a[1..], b);
    }
  }

  /** Kinds 1, 2 and 3 store: the payload at the address, then three zeros, and nothing
      else. No other kind stores anything. */
  lemma CallStores(m: seq<byte>, c: Call, x: nat)
    requires |m| == TWO32 && x < TWO32 && c.address + |c.payload| + 3 <= TWO32
    ensures Stored(m, c)[x] ==
            if c.kind !in {1, 2, 3} || c.payload == [] then m[x]
            else if c.address <= x < c.address + |c.payload| then c.payload[x - c.address]
            else if c.address + |c.payload| <= x < c.address + |c.payload| + 3 then 0
            else m[x]
  {
    hide Stored;
    StoredAt(m, c, x);
  }

  /** So a data record, whatever its width of address, leaves its payload where it says. */
  lemma RecordLoads(s: State, chars: seq<byte>, kind: nat, address: seq<byte>, value: int, payload: seq<byte>,
                    check: byte, x: nat)
    requires Shaped(s) && s.byteCount == 0 && s.length == 0 && kind in {1, 2, 3}
    requires IsRecord(chars, kind, address, payload, check) && AddressOf(kind, address, value)
    requires value <= x < value + |payload| && value + |payload| + 3 <= TWO32
    ensures var r := RunChars(s, chars); r.Some? && r.value.mem[x] == payload[x - value]
  {
    hide RunChars, Stored, IsRecord;
    RecordDecoded(s, chars, kind, address, value, payload, check);
    var n := |address| + |payload| + 1;
    AddressDecoded(kind, address, value);
    CallStores(s.mem, Call(kind, value, payload, n, n, (n + Total(address) + Total(payload) + check + 1) % 256), x);
  }

  /** The text S3061C000000AB32 stores AB at 1C000000. */
  lemma RecordExample(s: State)
    requires Shaped(s) && s.byteCount == 0 && s.length == 0
    ensures var r := RunChars(s, [83, 51, 48, 54, 49, 67, 48, 48, 48, 48, 48, 48, 65, 66, 51, 50]);
            r.Some? && r.value.log == s.log + [Call(3, 0x1C00_0000, [0xAB], 6, 6, 0)] &&
            r.value.mem[0x1C00_0000] == 0xAB
  {
    hide RunChars, Stored, Total, Writes;
    var hex: seq<byte> := [48, 54, 49, 67, 48, 48, 48, 48, 48, 48, 65, 66, 51, 50];
    var chars: seq<byte> := [83, 51] + hex;
    assert chars == [83, 51, 48, 54, 49, 67, 48, 48, 48, 48, 48, 48, 65, 66, 51, 50];
    var address: seq<byte> := [0x1C, 0, 0, 0];
    ExampleHex(hex);
    assert chars[2..] == hex;
    assert [6] + address + [0xAB] + [0x32] == [6, 0x1C, 0, 0, 0, 0xAB, 0x32];
    RecordDecoded(s, chars, 3, address, 0x1C00_0000, [0xAB], 0x32);
    ExampleTotals(address);
    CallStores(s.mem, Call(3, 0x1C00_0000, [0xAB], 6, 6, 0), 0x1C00_0000);
  }

  lemma ExampleTotals(address: seq<byte>)
    requires address == [0x1C, 0, 0, 0]
    ensures Total(address) == 0x1C && Total([0xAB]) == 0xAB
  {
    assert address[1..] == [0, 0, 0] && address[1..][1..] == [0, 0] && address[1..][1..][1..] == [0];
    assert Total([0]) == 0;
    assert Total([0, 0]) == 0;
    assert [0xAB][1..] == [];
  }

  lemma {:induction false} ExampleHex(hex: seq<byte>)
    requires hex == [48, 54, 49, 67, 48, 48, 48, 48, 48, 48, 65, 66, 51, 50]
    ensures Writes(hex, [6, 0x1C, 0, 0, 0, 0xAB, 0x32])
  {
    assert IsHex(48, 0) && IsHex(49, 1) && IsHex(50, 2) && IsHex(51, 3) && IsHex(54, 6);
    assert IsHex(65, 10) && IsHex(66, 11) && IsHex(67, 12);
    hide IsHex;
  }
}
