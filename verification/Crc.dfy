/** The CRC-32 of section 8 of RFC 1952, as the image generator computes it bit by bit
    (sw/pulp-runtime/bin/plp_flash_stimuli.py). */
module Crc {
  import opened Words

  const ONES: bv32 := 0xFFFF_FFFF

  /** The checksum of anything followed by its own checksum. */
  const RESIDUE: bv32 := 0x2144_DF1C

  function Xor(x: bv32, y: bv32): bv32 { x ^ y }

  function Low8(x: bv32): bv32 { x & 0xFF }

  function High24(x: bv32): bv32 { x & 0xFFFF_FF00 }

  function Down(x: bv32): bv32 { x >> 8 }

  function Up(x: bv32): bv32 { x << 8 }

  /** One bit of the reflected shift register. */
  function BitStep(c: bv32): bv32 {
    if c & 1 == 1 then (c >> 1) ^ 0xEDB8_8320 else c >> 1
  }

  function BitSteps(c: bv32, n: nat): bv32
    decreases n
  {
    if n == 0 then c else BitSteps(BitStep(c), n - 1)
  }

  function ByteStep(c: bv32): bv32 {
    BitStep(BitStep(BitStep(BitStep(BitStep(BitStep(BitStep(BitStep(c))))))))
  }

  /** A byte as a register value. */
  function Bits(b: byte): bv8 {
    b as bv8
  }

  function Lift(b: byte): bv32 {
    Bits(b) as bv32
  }

  /** The register after the bytes s. */
  function Update(c: bv32, s: seq<byte>): bv32
    decreases s
  {
    if s == [] then c else Update(ByteStep(Xor(c, Lift(s[0]))), s[1..])
  }

  function Crc(s: seq<byte>): bv32 {
    Xor(Update(ONES, s), ONES)
  }

  function Low(c: bv32): byte {
    ((c & 0xFF) as bv8) as int
  }

  /** `struct.pack("I", c)` on a little-endian machine. */
  function Pack(c: bv32): (s: seq<byte>)
    ensures |s| == 4
  {
    [Low(c), Low(Down(c)), Low(Down(Down(c))), Low(Down(Down(Down(c))))]
  }

  /** The innermost statements: a mask in place of a branch. */
  method ShiftBit(crc: bv32) returns (next: bv32)
    ensures next == BitStep(crc)
  {
    var mask: bv32;
    if crc & 1 == 1 {
      mask := 0xFFFF_FFFF;
    } else {
      mask := 0;
    }
    next := (crc >> 1) ^ (0xEDB8_8320 & mask);
  }

  /** The source's two loops compute the checksum of the specification, which is the
      standard's. */
  method GetCrc(buff: seq<byte>) returns (crc: bv32)
    ensures crc == Crc(buff) == StandardCrc(buff)
  {
    hide Lift, BitStep, ByteStep, Xor, StandardCrc;
    IsStandard(buff);
    crc := ONES;
    var k := 0;
    assert buff[0..] == buff;
    while k < |buff|
      invariant 0 <= k <= |buff|
      invariant Update(crc, buff[k..]) == Update(ONES, buff)
    {
      assert buff[k..][1..] == buff[k + 1..];
      crc := Xor(crc, Lift(buff[k]));
      EightSteps(crc);
      ghost var was := crc;
      var i := 7;
      while i > -1
        invariant -1 <= i <= 7
        invariant BitSteps(crc, i + 1) == BitSteps(was, 8)
      {
        crc := ShiftBit(crc);
        i := i - 1;
      }
      k := k + 1;
    }
    crc := Xor(crc, ONES);
  }

  lemma EightSteps(c: bv32)
    ensures BitSteps(c, 8) == ByteStep(c)
  {
    hide BitStep;
    assert BitSteps(c, 8) == BitSteps(BitStep(BitStep(BitStep(BitStep(c)))), 4);
  }

  // ------------------------------------------------------------- exclusive or

  lemma XorCancel(x: bv32, y: bv32, z: bv32)
    requires Xor(x, z) == Xor(y, z)
    ensures x == y
  {
  }

  lemma XorCancelLeft(c: bv32, x: bv32, y: bv32)
    requires Xor(c, x) == Xor(c, y)
    ensures x == y
  {
  }

  // ------------------------------------------------------------- the step is linear and one-to-one

  lemma ShiftXor(x: bv32, y: bv32)
    ensures (x ^ y) >> 1 == (x >> 1) ^ (y >> 1)
    ensures (x ^ y) & 1 == (x & 1) ^ (y & 1)
    ensures x & 1 == 0 || x & 1 == 1
  {
  }

  lemma XorRegroup(x: bv32, y: bv32, p: bv32)
    ensures (x ^ p) ^ (y ^ p) == x ^ y && (x ^ p) ^ y == (x ^ y) ^ p && x ^ (y ^ p) == (x ^ y) ^ p
  {
  }

  lemma BitStepXor(x: bv32, y: bv32)
    ensures BitStep(Xor(x, y)) == Xor(BitStep(x), BitStep(y))
  {
    ShiftXor(x, y);
    ShiftXor(y, x);
    XorRegroup(x >> 1, y >> 1, 0xEDB8_8320);
  }

  lemma {:induction false} BitStepsXor(x: bv32, y: bv32, n: nat)
    ensures BitSteps(Xor(x, y), n) == Xor(BitSteps(x, n), BitSteps(y, n))
    decreases n
  {
    hide BitStep, Xor;
    if n > 0 {
      BitStepXor(x, y);
      BitStepsXor(BitStep(x), BitStep(y), n - 1);
    }
  }

  lemma ByteStepXor(x: bv32, y: bv32)
    ensures ByteStep(Xor(x, y)) == Xor(ByteStep(x), ByteStep(y))
  {
    hide BitStep, ByteStep, Xor, BitSteps;
    EightSteps(x);
    EightSteps(y);
    EightSteps(Xor(x, y));
    BitStepsXor(x, y, 8);
  }

  /** The constant's top bit records which branch was taken. */
  lemma BitStepOneToOne(x: bv32, y: bv32)
    requires BitStep(x) == BitStep(y)
    ensures x == y
  {
  }

  lemma {:induction false} BitStepsOneToOne(x: bv32, y: bv32, n: nat)
    requires BitSteps(x, n) == BitSteps(y, n)
    ensures x == y
    decreases n
  {
    hide BitStep;
    if n > 0 {
      BitStepsOneToOne(BitStep(x), BitStep(y), n - 1);
      BitStepOneToOne(x, y);
    }
  }

  lemma ByteStepOneToOne(x: bv32, y: bv32)
    requires ByteStep(x) == ByteStep(y)
    ensures x == y
  {
    hide BitStep, ByteStep, BitSteps;
    EightSteps(x);
    EightSteps(y);
    BitStepsOneToOne(x, y, 8);
  }

  /** With nothing in the low byte, eight steps only shift. */
  lemma HighBytesShift(x: bv32)
    requires Low8(x) == 0
    ensures ByteStep(x) == Down(x)
  {
  }

  /** What lies above the low byte may be added before a step or, shifted, after it. */
  lemma Absorb(x: bv32, y: bv32)
    requires Low8(y) == 0
    ensures ByteStep(Xor(x, y)) == Xor(ByteStep(x), Down(y))
  {
    hide BitStep, ByteStep, Xor, Down, Low8;
    ByteStepXor(x, y);
    HighBytesShift(y);
  }

  // ------------------------------------------------------------- a table-driven form

  /** RFC 1952's `crc_table`. */
  function Table(n: bv32): bv32 {
    ByteStep(n)
  }

  /** RFC 1952's `update_crc`: one table lookup a byte. */
  function TableUpdate(c: bv32, s: seq<byte>): bv32
    decreases s
  {
    if s == [] then c else TableUpdate(Xor(Table(Low8(Xor(c, Lift(s[0])))), Down(c)), s[1..])
  }

  lemma SplitLow(c: bv32, b: bv32)
    requires Low8(b) == b
    ensures Xor(c, b) == Xor(Low8(Xor(c, b)), High24(c))
    ensures Low8(High24(c)) == 0 && Down(High24(c)) == Down(c)
  {
    hide Xor, Low8, High24, Down;
    HighKept(c, b);
    HalvesJoin(Xor(c, b));
    HighAlone(c);
  }

  lemma HighAlone(c: bv32)
    ensures Low8(High24(c)) == 0 && Down(High24(c)) == Down(c)
  {
  }

  lemma HighKept(c: bv32, b: bv32)
    requires Low8(b) == b
    ensures High24(Xor(c, b)) == High24(c)
  {
  }

  lemma HalvesJoin(x: bv32)
    ensures x == Xor(Low8(x), High24(x))
  {
  }

  /** The bitwise register is the standard's table-driven one, byte for byte. */
  lemma {:induction false} UpdateIsTableUpdate(c: bv32, s: seq<byte>)
    ensures Update(c, s) == TableUpdate(c, s)
    decreases s
  {
    hide ByteStep, Lift, Xor, Low8, High24, Down;
    if s != [] {
      var x := Xor(c, Lift(s[0]));
      LiftSmall(s[0]);
      SplitLow(c, Lift(s[0]));
      Absorb(Low8(x), High24(c));
      UpdateIsTableUpdate(ByteStep(x), s[1..]);
    }
  }

  // ------------------------------------------------------------- the standard's own program

  /** `make_crc_table`: the inner loop's turn, and the entry for n after k of them. */
  function StandardBit(c: bv32): bv32 {
    if c & 1 == 1 then 0xEDB8_8320 ^ (c >> 1) else c >> 1
  }

  function StandardEntry(n: bv32, k: nat): bv32 {
    if k == 0 then n else StandardBit(StandardEntry(n, k - 1))
  }

  function StandardIndex(c: bv32, b: bv32): bv32 {
    (c ^ b) & 0xFF
  }

  function StandardMix(entry: bv32, c: bv32): bv32 {
    entry ^ (c >> 8)
  }

  /** `update_crc`: the loop's turn for a byte b. */
  function StandardTurn(c: bv32, b: bv32): bv32 {
    StandardMix(StandardEntry(StandardIndex(c, b), 8), c)
  }

  function Complement(c: bv32): bv32 {
    c ^ 0xFFFF_FFFF
  }

  /** `crc`: nothing has checksum 0, and for every byte more the register is complemented
      before and after its turn. */
  function StandardCrc(s: seq<byte>): bv32 {
    if s == [] then 0
    else Complement(StandardTurn(Complement(StandardCrc(s[..|s| - 1])), (s[|s| - 1] as bv8) as bv32))
  }

  lemma BitIsStandard(c: bv32)
    ensures StandardBit(c) == BitStep(c)
  {
  }

  lemma {:induction false} EntryTurned(n: bv32, k: nat)
    ensures StandardEntry(BitStep(n), k) == StandardEntry(n, k + 1)
    decreases k
  {
    hide BitStep, StandardBit;
    if k == 0 {
      BitIsStandard(n);
    } else {
      EntryTurned(n, k - 1);
    }
  }

  lemma {:induction false} EntryIsSteps(n: bv32, k: nat)
    ensures StandardEntry(n, k) == BitSteps(n, k)
    decreases k
  {
    hide BitStep, StandardBit;
    if k > 0 {
      EntryTurned(n, k - 1);
      EntryIsSteps(BitStep(n), k - 1);
    }
  }

  lemma IndexIs(c: bv32, b: bv32)
    ensures StandardIndex(c, b) == Low8(Xor(c, b))
  {
  }

  lemma MixIs(e: bv32, c: bv32)
    ensures StandardMix(e, c) == Xor(e, Down(c))
  {
  }

  /** A byte steps the register as in the standard. */
  lemma TurnIsByteStep(c: bv32, b: bv32)
    requires Low8(b) == b
    ensures StandardTurn(c, b) == ByteStep(Xor(c, b))
  {
    hide ByteStep, BitSteps, StandardEntry, StandardIndex, StandardMix, Xor, Low8, High24, Down;
    var x := Xor(c, b);
    IndexIs(c, b);
    MixIs(StandardEntry(Low8(x), 8), c);
    EntryIsSteps(Low8(x), 8);
    EightSteps(Low8(x));
    SplitLow(c, b);
    Absorb(Low8(x), High24(c));
  }

  lemma LiftIs(b: byte)
    ensures Lift(b) == (b as bv8) as bv32
  {
  }

  lemma OneByte(c: bv32, b: byte)
    ensures Update(c, [b]) == ByteStep(Xor(c, Lift(b)))
  {
    hide ByteStep, Lift, Xor;
    assert [b][1..] == [];
    assert Update(ByteStep(Xor(c, Lift(b))), []) == ByteStep(Xor(c, Lift(b)));
  }

  lemma OnesIsComplement(c: bv32)
    ensures Xor(c, ONES) == Complement(c) && Complement(Complement(c)) == c && Complement(ONES) == 0
  {
  }

  /** The bit-by-bit checksum is the one of the standard's program. */
  lemma {:induction false} IsStandard(s: seq<byte>)
    ensures Crc(s) == StandardCrc(s)
    decreases |s|
  {
    hide ByteStep, Lift, Xor, StandardTurn, Complement, ONES;
    OnesIsComplement(Update(ONES, s));
    OnesIsComplement(ONES);
    if s != [] {
      var p, b := s[..|s| - 1], s[|s| - 1];
      assert p + [b] == s;
      IsStandard(p);
      UpdateConcat(ONES, p, [b]);
      var c := Update(ONES, p);
      OnesIsComplement(c);
      OneByte(c, b);
      LiftIs(b);
      LiftSmall(b);
      TurnIsByteStep(c, Lift(b));
    }
  }

  lemma FirstThree()
    ensures Update(ONES, [49, 50, 51]) == 0x77B7_9C2D
  {
    hide Update, Lift;
    LiftDigits();
    ThreeBytes(ONES, 49, 50, 51);
    assert ByteStep(Xor(ONES, 49)) == 0x7C23_1048;
    assert ByteStep(Xor(0x7C23_1048, 50)) == 0xB0AC_BB32;
    assert ByteStep(Xor(0xB0AC_BB32, 51)) == 0x77B7_9C2D;
  }

  lemma NextThree()
    ensures Update(0x77B7_9C2D, [52, 53, 54]) == 0xF68D_2C9E
  {
    hide Update, Lift;
    LiftDigits();
    ThreeBytes(0x77B7_9C2D, 52, 53, 54);
    assert ByteStep(Xor(0x77B7_9C2D, 52)) == 0x641C_1F5C;
    assert ByteStep(Xor(0x641C_1F5C, 53)) == 0x340A_C5E3;
    assert ByteStep(Xor(0x340A_C5E3, 54)) == 0xF68D_2C9E;
  }

  lemma LastThree()
    ensures Update(0xF68D_2C9E, [55, 56, 57]) == 0x340B_C6D9
  {
    hide Update, Lift;
    LiftDigits();
    ThreeBytes(0xF68D_2C9E, 55, 56, 57);
    assert ByteStep(Xor(0xF68D_2C9E, 55)) == 0xAFFC_9660;
    assert ByteStep(Xor(0xAFFC_9660, 56)) == 0x651F_2550;
    assert ByteStep(Xor(0x651F_2550, 57)) == 0x340B_C6D9;
  }

  lemma LiftDigits()
    ensures Lift(49) == 49 && Lift(50) == 50 && Lift(51) == 51 && Lift(52) == 52 && Lift(53) == 53
    ensures Lift(54) == 54 && Lift(55) == 55 && Lift(56) == 56 && Lift(57) == 57
  {
  }

  lemma ThreeBytes(c: bv32, x: byte, y: byte, z: byte)
    ensures Update(c, [x, y, z]) == ByteStep(Xor(ByteStep(Xor(ByteStep(Xor(c, Lift(x))), Lift(y))), Lift(z)))
  {
    hide ByteStep, Lift, Xor, Update;
    assert [x, y, z] == [x] + ([y] + [z]);
    UpdateConcat(c, [x], [y] + [z]);
    UpdateConcat(Update(c, [x]), [y], [z]);
    OneByte(c, x);
    OneByte(Update(c, [x]), y);
    OneByte(Update(Update(c, [x]), [y]), z);
  }

  /** The standard's check value: the checksum of the characters 123456789. */
  lemma CheckValue()
    ensures Crc([49, 50, 51, 52, 53, 54, 55, 56, 57]) == 0xCBF4_3926
  {
    hide Update, ByteStep;
    FirstThree();
    NextThree();
    LastThree();
    assert [49, 50, 51, 52, 53, 54, 55, 56, 57] == [49, 50, 51] + ([52, 53, 54] + [55, 56, 57]);
    UpdateConcat(ONES, [49, 50, 51], [52, 53, 54] + [55, 56, 57]);
    UpdateConcat(0x77B7_9C2D, [52, 53, 54], [55, 56, 57]);
  }

  // ------------------------------------------------------------- running over a concatenation

  lemma {:induction false} UpdateConcat(c: bv32, s: seq<byte>, t: seq<byte>)
    ensures Update(c, s + t) == Update(Update(c, s), t)
    decreases s
  {
    hide ByteStep, Lift, Xor;
    if s == [] {
      assert s + t == t;
    } else {
      assert (s + t)[1..] == s[1..] + t;
      UpdateConcat(ByteStep(Xor(c, Lift(s[0]))), s[1..], t);
    }
  }

  lemma {:induction false} UpdateOneToOne(x: bv32, y: bv32, s: seq<byte>)
    requires Update(x, s) == Update(y, s)
    ensures x == y
    decreases s
  {
    hide ByteStep, Lift, Xor;
    if s != [] {
      var x', y' := Xor(x, Lift(s[0])), Xor(y, Lift(s[0]));
      UpdateOneToOne(ByteStep(x'), ByteStep(y'), s[1..]);
      ByteStepOneToOne(x', y');
      XorCancel(x, y, Lift(s[0]));
    }
  }

  // ------------------------------------------------------------- four bytes as one word

  function Joined(a: bv32, b: bv32, c: bv32, d: bv32): bv32 {
    Xor(Xor(Xor(a, Up(b)), Up(Up(c))), Up(Up(Up(d))))
  }

  function JoinedBytes(w: seq<byte>): bv32
    requires |w| == 4
  {
    Joined(Lift(w[0]), Lift(w[1]), Lift(w[2]), Lift(w[3]))
  }

  function FourSteps(c: bv32): bv32 {
    ByteStep(ByteStep(ByteStep(ByteStep(c))))
  }

  lemma LiftSmall(b: byte)
    ensures Low8(Lift(b)) == Lift(b)
  {
    WideSmall(Bits(b));
  }

  lemma WideSmall(b: bv8)
    ensures Low8(b as bv32) == b as bv32
  {
  }

  lemma Shifted(b: bv32)
    requires Low8(b) == b
    ensures Low8(Up(b)) == 0 && Down(Up(b)) == b
    ensures Low8(Up(Up(b))) == 0 && Down(Up(Up(b))) == Up(b)
    ensures Low8(Up(Up(Up(b)))) == 0 && Down(Up(Up(Up(b)))) == Up(Up(b))
  {
  }

  lemma UnfoldFour(c: bv32, w: seq<byte>)
    requires |w| == 4
    ensures var r2 := ByteStep(Xor(ByteStep(Xor(c, Lift(w[0]))), Lift(w[1])));
            Update(c, w) == ByteStep(Xor(ByteStep(Xor(r2, Lift(w[2]))), Lift(w[3])))
  {
    hide ByteStep, Lift, Xor;
    var r1 := ByteStep(Xor(c, Lift(w[0])));
    var r2 := ByteStep(Xor(r1, Lift(w[1])));
    var r3 := ByteStep(Xor(r2, Lift(w[2])));
    assert w[1..][0] == w[1] && w[1..][1..] == w[2..];
    assert w[2..][0] == w[2] && w[2..][1..] == w[3..];
    assert w[3..][0] == w[3] && w[3..][1..] == [];
    assert Update(c, w) == Update(r1, w[1..]);
    assert Update(r1, w[1..]) == Update(r2, w[2..]);
    assert Update(r2, w[2..]) == Update(r3, w[3..]);
    assert Update(r3, w[3..]) == Update(ByteStep(Xor(r3, Lift(w[3]))), []);
  }

  lemma AbsorbFour(c: bv32, b0: bv32, b1: bv32, b2: bv32, b3: bv32)
    requires Low8(b0) == b0 && Low8(b1) == b1 && Low8(b2) == b2 && Low8(b3) == b3
    ensures ByteStep(Xor(ByteStep(Xor(ByteStep(Xor(ByteStep(Xor(c, b0)), b1)), b2)), b3))
         == FourSteps(Xor(Xor(Xor(Xor(c, b0), Up(b1)), Up(Up(b2))), Up(Up(Up(b3)))))
  {
    hide ByteStep, BitStep, Xor, Up, Down, Low8;
    Shifted(b1);
    Shifted(b2);
    Shifted(b3);
    var x0 := Xor(c, b0);
    var x1 := Xor(x0, Up(b1));
    var x2 := Xor(x1, Up(Up(b2)));
    Absorb(x0, Up(b1));
    Absorb(x1, Up(Up(b2)));
    Absorb(ByteStep(x1), Up(b2));
    Absorb(x2, Up(Up(Up(b3))));
    Absorb(ByteStep(x2), Up(Up(b3)));
    Absorb(ByteStep(ByteStep(x2)), Up(b3));
  }

  lemma RegroupFour(c: bv32, a: bv32, b: bv32, d: bv32, e: bv32)
    ensures Xor(Xor(Xor(Xor(c, a), b), d), e) == Xor(c, Xor(Xor(Xor(a, b), d), e))
  {
    hide Xor;
    XorAssociates(c, a, b);
    XorAssociates(c, Xor(a, b), d);
    XorAssociates(c, Xor(Xor(a, b), d), e);
  }

  lemma XorAssociates(x: bv32, y: bv32, z: bv32)
    ensures Xor(Xor(x, y), z) == Xor(x, Xor(y, z))
  {
  }

  /** Four bytes may all be added to the register before it is stepped. */
  lemma FourBytes(c: bv32, w: seq<byte>)
    requires |w| == 4
    ensures Update(c, w) == FourSteps(Xor(c, JoinedBytes(w)))
  {
    hide ByteStep, Lift, FourSteps, Update, Xor, Up, Low8;
    var b0, b1, b2, b3 := Lift(w[0]), Lift(w[1]), Lift(w[2]), Lift(w[3]);
    LiftSmall(w[0]);
    LiftSmall(w[1]);
    LiftSmall(w[2]);
    LiftSmall(w[3]);
    UnfoldFour(c, w);
    AbsorbFour(c, b0, b1, b2, b3);
    RegroupFour(c, b0, Up(b1), Up(Up(b2)), Up(Up(Up(b3))));
  }

  lemma FourStepsOneToOne(x: bv32, y: bv32)
    requires FourSteps(x) == FourSteps(y)
    ensures x == y
  {
    hide ByteStep;
    ByteStepOneToOne(ByteStep(ByteStep(ByteStep(x))), ByteStep(ByteStep(ByteStep(y))));
    ByteStepOneToOne(ByteStep(ByteStep(x)), ByteStep(ByteStep(y)));
    ByteStepOneToOne(ByteStep(x), ByteStep(y));
    ByteStepOneToOne(x, y);
  }

  // ------------------------------------------------------------- the residue

  lemma LowBack(b: bv8)
    ensures ((b as int) as bv8) == b
  {
  }

  lemma NarrowWiden(c: bv32)
    ensures ((c & 0xFF) as bv8) as bv32 == Low8(c)
  {
  }

  lemma LiftLow(c: bv32)
    ensures Lift(Low(c)) == Low8(c)
  {
    LowBack((c & 0xFF) as bv8);
    NarrowWiden(c);
  }

  lemma JoinedParts(c: bv32)
    ensures Joined(Low8(c), Low8(Down(c)), Low8(Down(Down(c))), Low8(Down(Down(Down(c))))) == c
  {
  }

  lemma ResidueSteps()
    ensures Xor(FourSteps(ONES), ONES) == RESIDUE
  {
  }

  lemma XorOnes(c: bv32)
    ensures Xor(c, Xor(c, ONES)) == ONES
  {
  }

  /** A buffer followed by its own checksum always has the same checksum. */
  lemma ResidueIsConstant(s: seq<byte>)
    ensures Crc(s + Pack(Crc(s))) == RESIDUE
  {
    hide ByteStep, Lift, FourSteps, Joined, Update, Low, Low8, Down, Xor, ONES, RESIDUE;
    var crc := Crc(s);
    var c := Update(ONES, s);
    UpdateConcat(ONES, s, Pack(crc));
    FourBytes(c, Pack(crc));
    LiftLow(crc);
    LiftLow(Down(crc));
    LiftLow(Down(Down(crc)));
    LiftLow(Down(Down(Down(crc))));
    JoinedParts(crc);
    XorOnes(c);
    ResidueSteps();
  }

  // ------------------------------------------------------------- short windows

  lemma JoinedOneToOne(a: bv32, b: bv32, c: bv32, d: bv32, a': bv32, b': bv32, c': bv32, d': bv32)
    requires Low8(a) == a && Low8(b) == b && Low8(c) == c && Low8(d) == d
    requires Low8(a') == a' && Low8(b') == b' && Low8(c') == c' && Low8(d') == d'
    requires Joined(a, b, c, d) == Joined(a', b', c', d')
    ensures a == a' && b == b' && c == c' && d == d'
  {
  }

  lemma WidenBack(x: bv8, y: bv8)
    requires x as bv32 == y as bv32
    ensures x == y
  {
  }

  lemma Successor(x: bv8)
    requires x as int < 255
    ensures (x + 1) as int == x as int + 1
  {
  }

  lemma {:induction false} ThroughBits(b: byte)
    ensures Bits(b) as int == b
  {
    hide *;
    if b == 0 {
      LowBack(0);
      BitsOf(0);
    } else {
      ThroughBits(b - 1);
      Successor(Bits(b - 1));
      LowBack(Bits(b - 1) + 1);
      BitsOf(b);
    }
  }

  lemma BitsOf(b: byte)
    ensures Bits(b) == b as bv8
  {
  }

  lemma LiftOneToOne(a: byte, b: byte)
    requires Lift(a) == Lift(b)
    ensures a == b
  {
    WidenBack(Bits(a), Bits(b));
    ThroughBits(a);
    ThroughBits(b);
  }

  lemma FourBytesDiffer(c: bv32, w: seq<byte>, v: seq<byte>)
    requires |w| == |v| == 4 && Update(c, w) == Update(c, v)
    ensures w == v
  {
    hide ByteStep, Lift, FourSteps, Joined, Update, Xor, Low8;
    FourBytes(c, w);
    FourBytes(c, v);
    FourStepsOneToOne(Xor(c, JoinedBytes(w)), Xor(c, JoinedBytes(v)));
    XorCancelLeft(c, JoinedBytes(w), JoinedBytes(v));
    forall k | 0 <= k < 4 ensures Low8(Lift(w[k])) == Lift(w[k]) && Low8(Lift(v[k])) == Lift(v[k]) {
      LiftSmall(w[k]);
      LiftSmall(v[k]);
    }
    JoinedOneToOne(Lift(w[0]), Lift(w[1]), Lift(w[2]), Lift(w[3]), Lift(v[0]), Lift(v[1]), Lift(v[2]), Lift(v[3]));
    forall k | 0 <= k < 4 ensures w[k] == v[k] {
      assert Lift(w[k]) == Lift(v[k]);
      LiftOneToOne(w[k], v[k]);
    }
  }

  /** Two different runs of at most four bytes never lead to the same register. */
  lemma ShortRunsDiffer(c: bv32, w: seq<byte>, v: seq<byte>)
    requires |w| == |v| <= 4 && Update(c, w) == Update(c, v)
    ensures w == v
  {
    hide Update;
    var z := Zeros(4 - |w|);
    UpdateConcat(c, w, z);
    UpdateConcat(c, v, z);
    FourBytesDiffer(c, w + z, v + z);
    assert (w + z)[..|w|] == w && (v + z)[..|v|] == v;
  }

  /** Buffers of one length that differ, but only inside four consecutive bytes. */
  ghost predicate DifferInWindow(x: seq<byte>, y: seq<byte>, a: nat) {
    |x| == |y| && x != y && forall i :: 0 <= i < |x| && !(a <= i < a + 4) ==> x[i] == y[i]
  }

  /** Buffers that end up in one register and agree outside the window are equal. */
  lemma SameRegisterSameWindow(x: seq<byte>, y: seq<byte>, lo: nat, hi: nat)
    requires |x| == |y| && lo <= hi <= |x| && hi <= lo + 4
    requires x[..lo] == y[..lo] && x[hi..] == y[hi..]
    requires Update(ONES, x) == Update(ONES, y)
    ensures x == y
  {
    hide Update, ONES;
    assert x == x[..lo] + (x[lo..hi] + x[hi..]);
    assert y == y[..lo] + (y[lo..hi] + y[hi..]);
    UpdateConcat(ONES, x[..lo], x[lo..hi] + x[hi..]);
    UpdateConcat(ONES, y[..lo], y[lo..hi] + y[hi..]);
    var c := Update(ONES, x[..lo]);
    UpdateConcat(c, x[lo..hi], x[hi..]);
    UpdateConcat(c, y[lo..hi], y[hi..]);
    UpdateOneToOne(Update(c, x[lo..hi]), Update(c, y[lo..hi]), x[hi..]);
    ShortRunsDiffer(c, x[lo..hi], y[lo..hi]);
  }

  /** Every error burst confined to four consecutive bytes changes the checksum. */
  lemma BurstDetected(x: seq<byte>, y: seq<byte>, a: nat)
    requires DifferInWindow(x, y, a)
    ensures Crc(x) != Crc(y)
  {
    hide Update, ONES, Xor;
    var n := |x|;
    var lo := if a <= n then a else n;
    var hi := if a + 4 <= n then a + 4 else n;
    assert x[..lo] == y[..lo] && x[hi..] == y[hi..];
    if Update(ONES, x) == Update(ONES, y) {
      SameRegisterSameWindow(x, y, lo, hi);
    }
    if Crc(x) == Crc(y) {
      XorCancel(Update(ONES, x), Update(ONES, y), ONES);
    }
  }
}
