/** Number parsing and printing of the boot ROM's C library
    (boot/zforth-riscv/libc.c). A C string is the sequence of its bytes; the byte
    after the last one is the terminator 0. */
module Numbers {
  import opened Words
  import opened Divisibility

  const LONG_MAX := 0x7fff_ffff
  const LONG_MIN := -0x8000_0000

  /** The bases a digit can be printed in. */
  type radix = b: nat | 2 <= b <= 36 witness 10

  function At(s: seq<byte>, i: nat): byte {
    if i < |s| then s[i] else 0
  }

  // The classification tests, each one unsigned 32-bit comparison.

  predicate IsSpace(c: byte) {
    c == 32 || ToWord(c - 9) < 5
  }

  predicate IsAscii(c: byte) {
    c < 128
  }

  predicate IsDigit(c: byte) {
    ToWord(c - 48) < 10
  }

  predicate IsAlpha(c: byte) {
    ToWord((if c / 32 % 2 == 1 then c else c + 32) - 97) < 26
  }

  predicate IsUpper(c: byte) {
    ToWord(c - 65) < 26
  }

  /** The value of a digit or letter in the given base. */
  function Digit(c: byte, base: nat): (r: Option<nat>)
    ensures r.Some? ==> r.value < base && c != 0
  {
    var v := if 48 <= c < 58 then c - 48
             else if 65 <= c < 91 then c - 55
             else if 97 <= c < 123 then c - 87
             else base;
    if v < base then Some(v) else None
  }

  function Quot(v: nat, base: nat): (r: nat)
    requires base >= 2
    ensures v >= 1 ==> r < v
    ensures v >= base ==> r >= 1
  {
    QuotientBounds(v, base);
    v / base
  }

  function Rem(v: nat, base: nat): (r: nat)
    requires base >= 2
    ensures r < base
    ensures v == Quot(v, base) * base + r
    ensures v < base ==> r == v
  {
    v % base
  }

  /** The number whose last digit in the given base is d and whose others are v. */
  function Append(v: nat, base: nat, d: nat): nat {
    v * base + d
  }

  function SkipSpace(s: seq<byte>, i: nat): (j: nat)
    ensures i <= j && (i <= |s| ==> j <= |s|)
    decreases |s| - i
  {
    if i < |s| && IsSpace(s[i]) then SkipSpace(s, i + 1) else i
  }

  /** Where the longest run of digits from i ends. */
  function DigitsEnd(s: seq<byte>, i: nat, base: nat): (j: nat)
    ensures i <= j && (i <= |s| ==> j <= |s|)
    ensures Digit(At(s, j), base) == None
    ensures forall k :: i <= k < j ==> Digit(At(s, k), base).Some?
    decreases |s| - i
  {
    if i < |s| && Digit(s[i], base).Some? then DigitsEnd(s, i + 1, base) else i
  }

  /** The number the digits at i..j stand for. */
  function ValueOf(s: seq<byte>, i: nat, j: nat, base: nat): nat
    requires i <= j && forall k :: i <= k < j ==> Digit(At(s, k), base).Some?
    decreases j - i
  {
    if i == j then 0 else Append(ValueOf(s, i, j - 1, base), base, Digit(At(s, j - 1), base).value)
  }

  function Clamp(v: int): cell {
    if v > LONG_MAX then LONG_MAX else if v < LONG_MIN then LONG_MIN else v
  }

  function Signed(neg: bool, v: nat): int {
    if neg then 0 - v else v
  }

  datatype Parsed = Parsed(value: cell, end: nat)

  function AfterSign(s: seq<byte>, p: nat): nat {
    if At(s, p) in {43, 45} then p + 1 else p
  }

  predicate HexMark(s: seq<byte>, i: nat) {
    At(s, i) == 48 && At(s, i + 1) in {88, 120}
  }

  /** What remains once white space and sign are passed: base and digits. */
  function ParseDigits(s: seq<byte>, neg: bool, q: nat, base: nat): Parsed {
    var r := DigitsEnd(s, q, base);
    var v := ValueOf(s, q, r, base);
    Parsed(Clamp(Signed(neg, v)), if r == q then 0 else r)
  }

  predicate ValidBase(base: int) {
    base == 0 || 2 <= base <= 36
  }

  /** What the code computes: once `0x` is seen in base 0 or 16 it commits to
      the hexadecimal digits after it. */
  function StrtolOf(s: seq<byte>, base: nat): Parsed
    requires ValidBase(base)
  {
    var p := SkipSpace(s, 0);
    var neg := At(s, p) == 45;
    var i := AfterSign(s, p);
    if base in {0, 16} && HexMark(s, i) then ParseDigits(s, neg, i + 2, 16)
    else ParseDigits(s, neg, i, if base != 0 then base else if At(s, i) == 48 then 8 else 10)
  }

  /** Section 7.22.1.4 of ISO/IEC 9899:2011: the subject sequence is the longest
      one of the expected form, so `0x` counts only when a hexadecimal digit
      follows it. */
  function StandardStrtol(s: seq<byte>, base: nat): Parsed
    requires ValidBase(base)
  {
    var p := SkipSpace(s, 0);
    var neg := At(s, p) == 45;
    var i := AfterSign(s, p);
    if base in {0, 16} && HexMark(s, i) && Digit(At(s, i + 2), 16).Some?
    then ParseDigits(s, neg, i + 2, 16)
    else ParseDigits(s, neg, i, if base != 0 then base else if At(s, i) == 48 then 8 else 10)
  }

  /** `0x` in hexadecimal position with no digit behind it. */
  predicate BareHexPrefix(s: seq<byte>, base: nat) {
    var p := SkipSpace(s, 0);
    var i := AfterSign(s, p);
    base in {0, 16} && HexMark(s, i) && Digit(At(s, i + 2), 16) == None
  }

  /** The code meets the standard exactly on inputs without a bare `0x`; there it
      reports that nothing was converted although the `0` was. */
  lemma ConformsIff(s: seq<byte>, base: nat)
    requires ValidBase(base)
    ensures StrtolOf(s, base) == StandardStrtol(s, base) <==> !BareHexPrefix(s, base)
    ensures BareHexPrefix(s, base) ==> StrtolOf(s, base) == Parsed(0, 0)
    ensures BareHexPrefix(s, base) ==>
              StandardStrtol(s, base).value == 0 && StandardStrtol(s, base).end > 0
  {
    if BareHexPrefix(s, base) {
      var p := SkipSpace(s, 0);
      var i := AfterSign(s, p);
      hide SkipSpace, AfterSign;
      NothingParsed(s, At(s, p) == 45, i + 2, 16);
      ZeroParsed(s, At(s, p) == 45, i, if base == 16 then 16 else 8);
    }
  }

  lemma NothingParsed(s: seq<byte>, neg: bool, q: nat, base: nat)
    requires Digit(At(s, q), base) == None
    ensures ParseDigits(s, neg, q, base) == Parsed(0, 0)
  {
  }

  lemma ZeroParsed(s: seq<byte>, neg: bool, q: nat, base: nat)
    requires HexMark(s, q) && base in {8, 16}
    ensures ParseDigits(s, neg, q, base) == Parsed(0, q + 1)
  {
    assert Digit(At(s, q), base) == Some(0);
    assert Digit(At(s, q + 1), base) == None;
    assert DigitsEnd(s, q + 1, base) == q + 1;
    assert DigitsEnd(s, q, base) == q + 1;
    assert ValueOf(s, q, q, base) == 0;
    assert ValueOf(s, q, q + 1, base) == Append(0, base, 0);
  }

  /** One input the two disagree on: the string 0xg in base 16. */
  lemma BareHexPrefixExample()
    ensures StrtolOf([48, 120, 103], 16) == Parsed(0, 0)
    ensures StandardStrtol([48, 120, 103], 16) == Parsed(0, 1)
  {
    var s: seq<byte> := [48, 120, 103];
    assert SkipSpace(s, 0) == 0;
    assert BareHexPrefix(s, 16);
    ConformsIff(s, 16);
    assert DigitsEnd(s, 0, 16) == DigitsEnd(s, 1, 16) == 1;
  }

  // ---------------------------------------------------------------- strtol

  lemma Times(v: nat, base: nat)
    requires base >= 1
    ensures v * base >= v
  {
  }

  lemma {:induction false} ValueGrows(s: seq<byte>, i: nat, k: nat, j: nat, base: nat)
    requires i <= k <= j && base >= 2
    requires forall n :: i <= n < j ==> Digit(At(s, n), base).Some?
    ensures ValueOf(s, i, k, base) <= ValueOf(s, i, j, base)
    decreases j - k
  {
    if k < j {
      ValueGrows(s, i, k, j - 1, base);
      Times(ValueOf(s, i, j - 1, base), base);
    }
  }

  /** The overflow test of the loop: the next digit takes the accumulator past the
      limit exactly when it is past limit/base, or at it with a too big digit. */
  lemma CutoffExact(limit: nat, base: nat, acc: nat, c: nat)
    requires base >= 2 && c < base
    ensures (acc > Quot(limit, base) || (acc == Quot(limit, base) && c > Rem(limit, base)))
            <==> Append(acc, base, c) > limit
  {
    var q, m := Quot(limit, base), Rem(limit, base);
    hide Quot, Rem;
    if acc > q {
      Scale(q + 1, acc, base);
    } else if acc < q {
      Scale(acc + 1, q, base);
    }
  }

  lemma Scale(x: nat, y: nat, base: nat)
    requires x <= y
    ensures x * base <= y * base && x * base == (x - 1) * base + base
  {
  }

  lemma DigitsEndIs(s: seq<byte>, i: nat, j: nat, base: nat)
    requires i <= j && Digit(At(s, j), base) == None
    requires forall k :: i <= k < j ==> Digit(At(s, k), base).Some?
    ensures DigitsEnd(s, i, base) == j
  {
    var e := DigitsEnd(s, i, base);
    if e < j {
      assert false;
    }
  }

  lemma SkipSpaceStep(s: seq<byte>, i: nat, j: nat)
    requires i <= j <= |s|
    requires forall k :: i <= k < j ==> IsSpace(s[k])
    requires !IsSpace(At(s, j))
    ensures SkipSpace(s, i) == j
    decreases j - i
  {
    if i < j {
      assert IsSpace(s[i]);
      SkipSpaceStep(s, i + 1, j);
    }
  }

  lemma ValueEmpty(s: seq<byte>, q: nat, base: nat)
    ensures ValueOf(s, q, q, base) == 0
  {
  }

  /** The branches of the loop that turn a character into a digit. */
  function Classify(c: byte): Option<nat> {
    if !IsAscii(c) then None
    else if IsDigit(c) then Some(c - 48)
    else if IsAlpha(c) then Some(c - if IsUpper(c) then 55 else 87)
    else None
  }

  lemma ClassifyIsDigit(c: byte, base: nat)
    requires base <= 36
    ensures Digit(c, base) == if Classify(c).Some? && Classify(c).value < base then Classify(c) else None
  {
    hide IsDigit, IsAlpha, IsUpper;
    DigitRange(c);
    if IsAscii(c) {
      LetterRanges(c);
    }
  }

  lemma DigitRange(c: byte)
    ensures IsDigit(c) <==> 48 <= c < 58
  {
  }

  lemma LetterRanges(c: byte)
    requires IsAscii(c)
    ensures IsUpper(c) <==> 65 <= c < 91
    ensures IsAlpha(c) <==> 65 <= c < 91 || 97 <= c < 123
  {
    var x: int := c;
    if x < 32 {
      DivModUnique(x, 32, 0, x);
    } else if x < 64 {
      DivModUnique(x, 32, 1, x - 32);
    } else if x < 96 {
      DivModUnique(x, 32, 2, x - 64);
    } else {
      DivModUnique(x, 32, 3, x - 96);
    }
  }

  /** What the overflow test decides about the number read so far. */
  lemma ValueStep(s: seq<byte>, q: nat, i: nat, base: nat, limit: nat)
    requires q < i && base >= 2
    requires forall k :: q <= k < i ==> Digit(At(s, k), base).Some?
    ensures var d, v := Digit(At(s, i - 1), base).value, ValueOf(s, q, i - 1, base);
            ValueOf(s, q, i, base) == Append(v, base, d) && v <= ValueOf(s, q, i, base) &&
            (ValueOf(s, q, i, base) > limit <==>
               v > Quot(limit, base) || (v == Quot(limit, base) && d > Rem(limit, base)))
  {
    CutoffExact(limit, base, ValueOf(s, q, i - 1, base), Digit(At(s, i - 1), base).value);
    ValueGrows(s, q, i - 1, i, base);
  }

  /** The digit loop of strtol and its result: `c` is the character under
      examination and i the index after it. The accumulator is shown never to pass
      the limit, so its 32-bit arithmetic cannot wrap. */
  method AccumulateDigits(s: seq<byte>, neg: bool, q: nat, base: radix) returns (value: cell, end: nat)
    ensures Parsed(value, end) == ParseDigits(s, neg, q, base)
  {
    hide ValueOf, Digit, Classify, DigitsEnd, Quot, Rem, Append, ParseDigits, Clamp, ToCell;
    var limit := if neg then -LONG_MIN else LONG_MAX;
    var cutlim, cutoff := Rem(limit, base), Quot(limit, base);
    var c, i := At(s, q), q + 1;
    var acc: word := 0;
    var any := 0;
    ValueEmpty(s, q, base);
    while true
      invariant q <= i - 1 && c == At(s, i - 1)
      invariant forall k :: q <= k < i - 1 ==> Digit(At(s, k), base).Some?
      invariant any == 0 <==> i - 1 == q
      invariant any >= 0 ==> acc == ValueOf(s, q, i - 1, base) <= limit
      invariant any < 0 ==> ValueOf(s, q, i - 1, base) > limit
      invariant any in {-1, 0, 1}
      decreases if i <= |s| + 1 then |s| + 2 - i else 0
    {
      var digit := Classify(c);
      ClassifyIsDigit(c, base);
      if digit == None || digit.value >= base {
        break;
      }
      var d := digit.value;
      DigitInside(s, i - 1, base);
      ValueStep(s, q, i, base, limit);
      if any < 0 || acc > cutoff || (acc == cutoff && d > cutlim) {
        any := -1;
      } else {
        any := 1;
        acc := Append(acc, base, d);
      }
      c := At(s, i);
      i := i + 1;
    }
    LoopResult(s, neg, q, i - 1, base);
    ClampedTo(neg, ValueOf(s, q, i - 1, base));
    if any < 0 {
      value := if neg then LONG_MIN else LONG_MAX;
    } else if neg {
      value := ToCell(0 - acc as int);
    } else {
      value := ToCell(acc);
    }
    end := if any != 0 then i - 1 else 0;
  }

  /** What the loop leaves when it stops at r. */
  lemma LoopResult(s: seq<byte>, neg: bool, q: nat, r: nat, base: nat)
    requires q <= r && Digit(At(s, r), base) == None
    requires forall k :: q <= k < r ==> Digit(At(s, k), base).Some?
    ensures ParseDigits(s, neg, q, base) == Parsed(Clamp(Signed(neg, ValueOf(s, q, r, base))), if r == q then 0 else r)
  {
    hide ValueOf, Digit, Clamp, Signed, DigitsEnd;
    DigitsEndIs(s, q, r, base);
  }

  lemma ClampedTo(neg: bool, v: nat)
    ensures var limit := if neg then -LONG_MIN else LONG_MAX;
            Clamp(Signed(neg, v)) ==
            if v <= limit then ToCell(Signed(neg, v)) else if neg then LONG_MIN else LONG_MAX
  {
  }

  lemma DigitInside(s: seq<byte>, i: nat, base: nat)
    requires Digit(At(s, i), base).Some?
    ensures i < |s|
  {
  }

  /** The do-while loop over white space: the first other character and the
      index after it. */
  method PassSpace(s: seq<byte>) returns (c: byte, i: nat)
    ensures i == SkipSpace(s, 0) + 1 && c == At(s, SkipSpace(s, 0))
  {
    i := 0;
    c := At(s, i);
    i := i + 1;
    while IsSpace(c)
      invariant 1 <= i <= |s| + 1 && c == At(s, i - 1)
      invariant forall k :: 0 <= k < i - 1 ==> IsSpace(s[k])
      decreases |s| + 1 - i
    {
      c := At(s, i);
      i := i + 1;
    }
    SkipSpaceStep(s, 0, i - 1);
  }

  /** strtol up to the digit loop: white space, sign, base prefix. */
  method Strtol(s: seq<byte>, base0: int) returns (value: cell, end: nat)
    requires ValidBase(base0)
    ensures Parsed(value, end) == StrtolOf(s, base0)
  {
    hide ParseDigits, Digit;
    var base := base0;
    var c, i := PassSpace(s);
    var neg := false;
    if c == 45 {
      neg := true;
      c := At(s, i);
      i := i + 1;
    } else if c == 43 {
      c := At(s, i);
      i := i + 1;
    }
    if (base == 0 || base == 16) && c == 48 && (At(s, i) == 120 || At(s, i) == 88) {
      c := At(s, i + 1);
      i := i + 2;
      base := 16;
    }
    if base == 0 {
      base := if c == 48 then 8 else 10;
    }
    value, end := AccumulateDigits(s, neg, i - 1, base);
  }

  // ------------------------------------------------------------------ itoa

  function DigitChar(d: nat): byte
    requires d < 36
  {
    if d < 10 then 48 + d else 87 + d
  }

  /** The digits of v in the given base, most significant first. */
  function Digits(v: nat, base: radix): (s: seq<byte>)
    ensures |s| >= 1
    decreases v
  {
    if v < base then [DigitChar(v)] else Digits(Quot(v, base), base) + [DigitChar(Rem(v, base))]
  }

  function ItoaText(v: cell, base: radix): seq<byte> {
    if base == 10 && v < 0 then [45] + Digits(0 - v, 10) else Digits(ToWord(v), base)
  }

  function Reversed(s: seq<byte>): (r: seq<byte>)
    ensures |r| == |s|
    ensures forall k :: 0 <= k < |s| ==> r[k] == s[|s| - 1 - k]
  {
    if s == [] then [] else Reversed(s[1..]) + [s[0]]
  }

  lemma ReversedEmpty()
    ensures Reversed([]) == []
  {
  }

  /** The digits still to come from `value` followed by those already written,
      which stand in the buffer in reverse order. */
  ghost predicate Pending(whole: seq<byte>, value: nat, written: seq<byte>, base: radix) {
    whole == (if value == 0 && written != [] then [] else Digits(value, base)) + Reversed(written)
  }

  lemma PendingStep(whole: seq<byte>, value: nat, written: seq<byte>, base: nat)
    requires 2 <= base <= 36 && Pending(whole, value, written, base)
    requires value != 0 || written == []
    ensures Pending(whole, Quot(value, base), written + [DigitChar(Rem(value, base))], base)
  {
    var c := DigitChar(Rem(value, base));
    hide DigitChar, Rem;
    assert Reversed(written + [c]) == [c] + Reversed(written);
    assert value < base ==> Quot(value, base) == 0;
  }

  /** The division loop of the printer: least significant digit first. */
  method DivideOut(value0: word, str: array<byte>, off: nat, base: nat) returns (i: nat)
    requires 2 <= base <= 36 && off + |Digits(value0, base)| < str.Length
    modifies str
    ensures i == |Digits(value0, base)| >= 1 && Reversed(str[off..off + i]) == Digits(value0, base)
    ensures str[..off] == old(str[..off])
  {
    hide Quot, Rem, DigitChar, Digits, Reversed;
    ReversedEmpty();
    var value: nat := value0;
    i := 0;
    ghost var whole := Digits(value0, base);
    while true
      invariant 0 <= i <= |whole| && off + |whole| < str.Length
      invariant Pending(whole, value, str[off..off + i], base)
      invariant value != 0 || i == 0
      invariant str[..off] == old(str[..off])
      decreases |whole| - i
    {
      assert i < |whole|;
      ghost var written := str[off..off + i];
      PendingStep(whole, value, written, base);
      var remainder := Rem(value, base);
      str[off + i] := DigitChar(remainder);
      i := i + 1;
      value := Quot(value, base);
      assert str[off..off + i] == written + [DigitChar(remainder)];
      if value == 0 {
        break;
      }
    }
    assert whole == Reversed(str[off..off + i]);
  }

  /** Prints an unsigned word at str[off..]: digits by division, least significant
      first, then an in-place reversal. */
  method Utoa(value0: word, str: array<byte>, off: nat, base: int) returns (ok: bool)
    requires off < str.Length
    requires 2 <= base <= 36 ==> off + |Digits(value0, base)| < str.Length
    modifies str
    ensures ok == (2 <= base <= 36)
    ensures ok ==> var n := |Digits(value0, base)|;
                   str[off..off + n] == Digits(value0, base) && str[off + n] == 0
    ensures !ok ==> str[off] == 0
    ensures str[..off] == old(str[..off])
  {
    hide Digits, Reversed;
    if base < 2 || base > 36 {
      str[off] := 0;
      return false;
    }
    var i := DivideOut(value0, str, off, base);
    ghost var written := str[off..off + i];
    str[off + i] := 0;
    assert str[off..off + i] == written;
    ReverseInPlace(str, off, i);
    assert str[off + i..][0] == 0;
    return true;
  }

  /** The exchange loop of the printer on str[off..off + n]. */
  method ReverseInPlace(str: array<byte>, off: nat, n: nat)
    requires off + n <= str.Length && n >= 1
    modifies str
    ensures str[off..off + n] == Reversed(old(str[off..off + n]))
    ensures str[..off] == old(str[..off]) && str[off + n..] == old(str[off + n..])
  {
    ghost var was := str[..];
    ghost var m := off + off + n - 1;
    var j, i := 0, n - 1;
    while j < i
      invariant 0 <= j <= i + 1 <= n && j + i == n - 1
      invariant forall k :: off <= k < off + j ==> str[k] == was[m - k]
      invariant forall k :: off + i < k < off + n ==> str[k] == was[m - k]
      invariant forall k :: off + j <= k <= off + i ==> str[k] == was[k]
      invariant forall k :: 0 <= k < off || off + n <= k < str.Length ==> str[k] == was[k]
    {
      str[off + j], str[off + i] := str[off + i], str[off + j];
      j, i := j + 1, i - 1;
    }
    ReversedSlice(was, str[..], off, n);
  }

  lemma ReversedSlice(was: seq<byte>, now: seq<byte>, off: nat, n: nat)
    requires |was| == |now| && off + n <= |was|
    requires forall k :: off <= k < off + n ==> now[k] == was[off + off + n - 1 - k]
    requires forall k :: 0 <= k < off || off + n <= k < |was| ==> now[k] == was[k]
    ensures now[off..off + n] == Reversed(was[off..off + n])
    ensures now[..off] == was[..off] && now[off + n..] == was[off + n..]
  {
  }

  lemma PlainWord(value: cell)
    ensures value >= 0 ==> ToWord(value) == value
  {
  }

  method Itoa(value: cell, str: array<byte>, base: int) returns (ok: bool)
    requires str.Length >= 1
    requires 2 <= base <= 36 ==> |ItoaText(value, base)| < str.Length
    modifies str
    ensures ok == (2 <= base <= 36)
    ensures ok ==> var n := |ItoaText(value, base)|;
                   str[..n] == ItoaText(value, base) && str[n] == 0
    ensures !ok ==> str[0] == 0
  {
    hide Digits, Digit, ToWord;
    if base < 2 || base > 36 {
      str[0] := 0;
      return false;
    }
    PlainWord(value);
    var i := 0;
    var uvalue: word;
    if base == 10 && value < 0 {
      str[i] := 45;
      i := i + 1;
      uvalue := 0 - value as int;
    } else {
      uvalue := ToWord(value);
    }
    ok := Utoa(uvalue, str, i, base);
    ghost var n := |Digits(uvalue, base)|;
    assert str[..i] == if i == 1 then [45] else [];
    assert str[..i + n] == str[..i] + str[i..i + n];
  }

  // ------------------------------------------------------------ round trip

  lemma {:induction false} DigitsParse(s: seq<byte>, q: nat, j: nat, v: nat, base: nat)
    requires 2 <= base <= 36 && q <= j <= |s| && s[q..j] == Digits(v, base)
    ensures forall k :: q <= k < j ==> Digit(At(s, k), base).Some?
    ensures ValueOf(s, q, j, base) == v
    decreases v
  {
    hide Digit, DigitChar, Quot, Rem;
    var c := DigitChar(Rem(v, base));
    DigitCharParses(Rem(v, base), base);
    if v < base {
      LastOfSlice(s, q, j, [], c);
      ValueEmpty(s, q, base);
    } else {
      var e := Digits(Quot(v, base), base);
      LastOfSlice(s, q, j, e, c);
      DigitsParse(s, q, j - 1, Quot(v, base), base);
    }
  }

  lemma LastOfSlice(s: seq<byte>, q: nat, j: nat, e: seq<byte>, c: byte)
    requires q <= j <= |s| && s[q..j] == e + [c]
    ensures j == q + |e| + 1 && s[q..j - 1] == e && s[j - 1] == At(s, j - 1) == c
  {
    assert s[q..j][|e|] == c;
    assert s[q..j - 1] == s[q..j][..|e|];
  }

  lemma DigitCharParses(d: nat, base: nat)
    requires d < base <= 36
    ensures Digit(DigitChar(d), base) == Some(d)
    ensures DigitChar(d) == 48 <==> d == 0
  {
  }

  lemma {:induction false} NoLeadingZero(v: nat, base: radix)
    ensures !IsSpace(Digits(v, base)[0]) && Digits(v, base)[0] !in {43, 45}
    ensures Digits(v, base)[0] == 48 ==> v == 0 && |Digits(v, base)| == 1
    decreases v
  {
    DigitCharParses(Rem(v, base), base);
    if v >= base {
      NoLeadingZero(Quot(v, base), base);
      assert Digits(v, base)[0] == Digits(Quot(v, base), base)[0];
    }
  }

  /** Parsing what was printed: sign and digits come back, clamped. */
  lemma PrintedParses(neg: bool, v: nat, base: radix)
    ensures var s := (if neg then [45] else []) + Digits(v, base);
            StrtolOf(s, base) == Parsed(Clamp(Signed(neg, v)), |s|)
  {
    var s := (if neg then [45] else []) + Digits(v, base);
    var q := if neg then 1 else 0;
    hide Digits, ValueOf, Digit, ParseDigits, Clamp, Signed, SkipSpace, AfterSign, HexMark;
    NoLeadingZero(v, base);
    assert s[q..|s|] == Digits(v, base);
    assert s[q] == Digits(v, base)[0];
    DigitsParse(s, q, |s|, v, base);
    EndParses(s, base);
    LoopResult(s, neg, q, |s|, base);
    StartsWithDigit(s, neg, q);
  }

  lemma EndParses(s: seq<byte>, base: nat)
    ensures Digit(At(s, |s|), base) == None
  {
  }

  /** Nothing but a sign is passed in front of a digit. */
  lemma StartsWithDigit(s: seq<byte>, neg: bool, q: nat)
    requires q == (if neg then 1 else 0) < |s| && (neg ==> s[0] == 45)
    requires 48 <= s[q] < 58 || 65 <= s[q] < 91 || 97 <= s[q] < 123
    requires s[q] == 48 ==> q + 1 == |s|
    ensures SkipSpace(s, 0) == 0 && AfterSign(s, 0) == q && (At(s, 0) == 45 <==> neg) && !HexMark(s, q)
  {
  }

  /** itoa then strtol gives the number back exactly when it was printed with its
      sign: in base 10, or when it is not negative. */
  lemma PrintParseRoundTrip(v: cell, base: radix)
    ensures StrtolOf(ItoaText(v, base), base) == Parsed(v, |ItoaText(v, base)|)
            <==> base == 10 || v >= 0
    ensures base != 10 && v < 0 ==> StrtolOf(ItoaText(v, base), base).value == LONG_MAX
  {
    hide StrtolOf, Digits;
    if base == 10 && v < 0 {
      PrintedParses(true, 0 - v, base);
    } else {
      PrintedParses(false, ToWord(v), base);
      assert [] + Digits(ToWord(v), base) == ItoaText(v, base);
    }
  }

  // ------------------------------------------------------- in characters

  const LOWER := "0123456789abcdefghijklmnopqrstuvwxyz"
  const UPPER := "0123456789ABCDEFGHIJKLMNOPQRSTUVWXYZ"

  /** c is the digit d, a letter in either case. */
  predicate IsDigitChar(c: byte, d: nat) {
    d < 36 && (c == LOWER[d] as int || c == UPPER[d] as int)
  }

  /** White space is tab, line feed, vertical tab, form feed, carriage return and space. */
  lemma SpaceBytes(c: byte)
    ensures IsSpace(c) <==> c in {9, 10, 11, 12, 13, 32}
  {
  }

  lemma LowerChars(d: nat)
    requires d < 36
    ensures LOWER[d] as int == if d < 10 then 48 + d else 87 + d
  {
  }

  lemma UpperChars(d: nat)
    requires d < 36
    ensures UPPER[d] as int == if d < 10 then 48 + d else 55 + d
  {
  }

  /** The values of the digits, in every base above them; nothing else is a digit. */
  lemma DigitValues(c: byte, base: nat)
    requires base <= 36
    ensures forall d: nat :: d < base && IsDigitChar(c, d) ==> Digit(c, base) == Some(d)
    ensures (forall d: nat :: d < base ==> !IsDigitChar(c, d)) ==> Digit(c, base) == None
  {
    hide LOWER, UPPER;
    forall d: nat | d < 36
      ensures IsDigitChar(c, d) <==>
                c == (if d < 10 then 48 + d else 87 + d) || c == (if d < 10 then 48 + d else 55 + d)
    {
      LowerChars(d);
      UpperChars(d);
    }
    if Digit(c, base).Some? {
      assert IsDigitChar(c, Digit(c, base).value);
    }
  }

  /** s writes the digits ds. */
  ghost predicate Spells(s: seq<byte>, ds: seq<nat>) {
    |s| == |ds| && forall i :: 0 <= i < |ds| ==> IsDigitChar(s[i], ds[i])
  }

  /** The number the digits ds stand for, most significant first. */
  function Horner(ds: seq<nat>, base: nat): nat {
    if ds == [] then 0 else Horner(ds[..|ds| - 1], base) * base + ds[|ds| - 1]
  }

  lemma {:induction false} ValueIsHorner(t: seq<byte>, q: nat, s: seq<byte>, ds: seq<nat>, base: nat)
    requires base <= 36 && Spells(s, ds) && q + |s| <= |t| && t[q..q + |s|] == s
    requires forall i :: 0 <= i < |ds| ==> ds[i] < base
    ensures forall k :: q <= k < q + |s| ==> Digit(At(t, k), base).Some?
    ensures ValueOf(t, q, q + |s|, base) == Horner(ds, base)
    decreases |s|
  {
    hide Digit, IsDigitChar;
    if s != [] {
      var n := |s| - 1;
      assert t[q..q + n] == s[..n];
      ValueIsHorner(t, q, s[..n], ds[..n], base);
      assert t[q + n] == s[n] && IsDigitChar(s[n], ds[n]);
      DigitValues(s[n], base);
    }
  }

  /** What strtol is given: white space, perhaps a sign, perhaps `0x`, digits, and then
      something that is no further digit. */
  ghost predicate Numeral(space: seq<byte>, sign: seq<byte>, prefix: seq<byte>, s: seq<byte>, ds: seq<nat>,
                          tail: seq<byte>, base: nat, b: nat)
  {
    (forall i :: 0 <= i < |space| ==> space[i] in {9, 10, 11, 12, 13, 32}) &&
    (sign == [] || sign == [43] || sign == [45]) &&
    ds != [] && Spells(s, ds) && 2 <= b <= 36 && (forall i :: 0 <= i < |ds| ==> ds[i] < b) &&
    (tail != [] ==> forall d: nat :: d < b ==> !IsDigitChar(tail[0], d)) &&
    (if prefix == [48, 120] || prefix == [48, 88] then b == 16 && (base == 16 || base == 0)
     else prefix == [] && !(base in {0, 16} && s[0] == 48 && |s + tail| > 1 && (s + tail)[1] in {88, 120}) &&
          (if base == 0 then b == if s[0] == 48 then 8 else 10 else b == base))
  }

  /** strtol reads it to the end of the digits and gives the number, with its sign,
      confined to 32 bits. */
  lemma StrtolReads(space: seq<byte>, sign: seq<byte>, prefix: seq<byte>, s: seq<byte>, ds: seq<nat>,
                    tail: seq<byte>, base: nat, b: nat)
    requires ValidBase(base) && Numeral(space, sign, prefix, s, ds, tail, base, b)
    ensures var r := StrtolOf(space + sign + prefix + s + tail, base);
            var h: int := Horner(ds, b);
            var v := if sign == [45] then 0 - h else h;
            r.end == |space + sign + prefix + s| &&
            r.value == if v > 2147483647 then 2147483647 else if v < -2147483648 then -2147483648 else v
  {
    BaseFound(space, sign, prefix, s, ds, tail, base, b);
    hide StrtolOf, ParseDigits, Horner, IsDigitChar;
    DigitsFound(space + sign + prefix, sign == [45], s, ds, tail, b);
  }

  /** White space, sign and prefix are passed, and the base is settled. */
  lemma BaseFound(space: seq<byte>, sign: seq<byte>, prefix: seq<byte>, s: seq<byte>, ds: seq<nat>,
                  tail: seq<byte>, base: nat, b: nat)
    requires ValidBase(base) && Numeral(space, sign, prefix, s, ds, tail, base, b)
    ensures var t := space + sign + prefix + s + tail;
            StrtolOf(t, base) == ParseDigits(t, sign == [45], |space + sign + prefix|, b)
  {
    hide ParseDigits, SkipSpace, IsSpace, IsDigitChar;
    var t := space + sign + prefix + s + tail;
    FirstChars(t, space, sign, prefix, s, tail);
    DigitsNoSign(s[0], ds[0]);
    SpaceBytes(At(t, |space|));
    SkipsTo(t, space, |space|);
  }

  /** Digits followed by something else are the number they write. */
  lemma DigitsFound(front: seq<byte>, neg: bool, s: seq<byte>, ds: seq<nat>, tail: seq<byte>, b: nat)
    requires ds != [] && Spells(s, ds) && 2 <= b <= 36 && forall i :: 0 <= i < |ds| ==> ds[i] < b
    requires tail != [] ==> forall d: nat :: d < b ==> !IsDigitChar(tail[0], d)
    ensures ParseDigits(front + s + tail, neg, |front|, b) ==
            Parsed(Clamp(Signed(neg, Horner(ds, b))), |front + s|)
  {
    hide Digit, ParseDigits, ValueOf, IsDigitChar, Horner, Clamp, Signed;
    var t := front + s + tail;
    var q, r := |front|, |front + s|;
    assert t[q..r] == s;
    ValueIsHorner(t, q, s, ds, b);
    assert At(t, r) == if tail == [] then 0 else tail[0];
    EndDigit(tail, b);
    LoopResult(t, neg, q, r, b);
  }

  lemma FirstChars(t: seq<byte>, space: seq<byte>, sign: seq<byte>, prefix: seq<byte>, s: seq<byte>, tail: seq<byte>)
    requires t == space + sign + prefix + s + tail && s != []
    ensures var i := |space + sign|; var q := |space + sign + prefix|;
            (sign != [] ==> At(t, |space|) == sign[0]) &&
            (prefix != [] ==> At(t, i) == prefix[0]) && (|prefix| > 1 ==> At(t, i + 1) == prefix[1]) &&
            At(t, q) == s[0] && At(t, q + 1) == if |s + tail| > 1 then (s + tail)[1] else 0
  {
    var q := |space + sign + prefix|;
    assert |s + tail| > 1 ==> t[q + 1] == (s + tail)[1];
  }

  lemma SkipsTo(t: seq<byte>, space: seq<byte>, p: nat)
    requires p == |space| <= |t| && t[..p] == space && !IsSpace(At(t, p))
    requires forall i :: 0 <= i < |space| ==> space[i] in {9, 10, 11, 12, 13, 32}
    ensures SkipSpace(t, 0) == p
  {
    hide IsSpace, SkipSpace;
    forall k | 0 <= k < p
      ensures IsSpace(t[k])
    {
      assert t[k] == space[k];
      SpaceBytes(t[k]);
    }
    SkipSpaceStep(t, 0, p);
  }

  lemma EndDigit(tail: seq<byte>, b: nat)
    requires b <= 36 && (tail != [] ==> forall d: nat :: d < b ==> !IsDigitChar(tail[0], d))
    ensures Digit(if tail == [] then 0 else tail[0], b) == None
  {
    hide IsDigitChar;
    if tail != [] {
      DigitValues(tail[0], b);
    }
  }

  /** Digits are neither white space nor signs. */
  lemma DigitsNoSign(c: byte, d: nat)
    requires IsDigitChar(c, d)
    ensures !IsSpace(c) && c != 43 && c != 45
  {
    hide LOWER, UPPER;
    LowerChars(d);
    UpperChars(d);
  }

  /** itoa's digits: in lower case, without a leading 0, standing for the number. */
  lemma {:induction false} PrintedDigits(v: nat, base: radix) returns (ds: seq<nat>)
    ensures |ds| == |Digits(v, base)| > 0 && Horner(ds, base) == v
    ensures forall i :: 0 <= i < |ds| ==> ds[i] < base && Digits(v, base)[i] == LOWER[ds[i]] as int
    ensures ds[0] == 0 ==> v == 0 && |ds| == 1
    decreases v
  {
    hide LOWER, DigitChar;
    var d := Rem(v, base);
    LowerChars(d);
    CharOf(d);
    if v < base {
      ds := [d];
      assert ds[..0] == [];
      assert Horner(ds, base) == Horner([], base) * base + d;
    } else {
      var e := PrintedDigits(Quot(v, base), base);
      ds := e + [d];
      assert ds[..|ds| - 1] == e;
    }
  }

  lemma CharOf(d: nat)
    requires d < 36
    ensures DigitChar(d) == LOWER[d] as int
  {
    hide LOWER;
    LowerChars(d);
  }

  /** Printed with the letters in either case, a number parses back, clamped. */
  lemma EitherCaseParses(v: nat, base: radix, s: seq<byte>)
    requires |s| == |Digits(v, base)|
    requires forall i, d :: 0 <= i < |s| && 0 <= d < 36 && Digits(v, base)[i] == LOWER[d] as int ==>
               s[i] == LOWER[d] as int || s[i] == UPPER[d] as int
    ensures StrtolOf(s, base) == Parsed(if v > 2147483647 then 2147483647 else v, |s|)
  {
    hide Digits, LOWER, UPPER, StrtolOf, Horner;
    var ds := PrintedDigits(v, base);
    assert Spells(s, ds);
    assert [] + [] + [] + s + [] == s;
    NotPrefixed(s, ds);
    StrtolReads([], [], [], s, ds, [], base, base);
  }

  /** A second digit x does not follow a leading 0, as there is none. */
  lemma NotPrefixed(s: seq<byte>, ds: seq<nat>)
    requires Spells(s, ds) && ds != [] && (ds[0] == 0 ==> |ds| == 1)
    ensures !(s[0] == 48 && |s + []| > 1)
  {
    hide LOWER, UPPER;
    LowerChars(ds[0]);
    UpperChars(ds[0]);
  }

  /** Where no digit follows white space and sign, strtol reports that it has read nothing. */
  lemma StrtolNothing(space: seq<byte>, sign: seq<byte>, tail: seq<byte>, base: nat)
    requires ValidBase(base) && (forall i :: 0 <= i < |space| ==> space[i] in {9, 10, 11, 12, 13, 32})
    requires sign == [43] || sign == [45] || (sign == [] && (tail != [] ==> !IsSpace(tail[0]) && tail[0] !in {43, 45}))
    requires tail != [] ==> forall d: nat :: d < (if base == 0 then 10 else base) ==> !IsDigitChar(tail[0], d)
    ensures StrtolOf(space + sign + tail, base) == Parsed(0, 0)
  {
    hide ParseDigits, SkipSpace, IsSpace, IsDigitChar;
    var t := space + sign + tail;
    var q := |space + sign|;
    SpaceBytes(43);
    SpaceBytes(45);
    SpaceBytes(0);
    assert At(t, q) == if tail == [] then 0 else tail[0];
    assert sign != [] ==> At(t, |space|) == sign[0];
    SkipsTo(t, space, |space|);
    ZeroChar();
    var b := if base == 0 then 10 else base;
    EndDigit(tail, b);
    NothingParsed(t, sign == [45], q, b);
  }

  lemma ZeroChar()
    ensures IsDigitChar(48, 0)
  {
    hide UPPER;
    LowerChars(0);
  }

  /** itoa prints a sign in base 10, and otherwise the number modulo 2^32. */
  lemma ItoaWrites(v: cell, base: radix) returns (ds: seq<nat>)
    ensures var sign: seq<byte> := if base == 10 && v < 0 then [45] else [];
            |ItoaText(v, base)| == |sign| + |ds| && ItoaText(v, base)[..|sign|] == sign &&
            forall i :: 0 <= i < |ds| ==> ds[i] < base && ItoaText(v, base)[|sign| + i] == LOWER[ds[i]] as int
    ensures |ds| > 0 && (ds[0] == 0 ==> v == 0 && |ds| == 1)
    ensures Horner(ds, base) == if v >= 0 then v as int else if base == 10 then 0 - v as int else 4294967296 + v as int
  {
    hide Digits, LOWER, Horner;
    ds := PrintedDigits(if base == 10 && v < 0 then 0 - v as int else ToWord(v), base);
  }
}
