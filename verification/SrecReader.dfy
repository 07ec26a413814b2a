/** The S-record reader as an object updated by every character (boot/kk_srec.c), with
    the boot ROM's callback (boot/boot_code.c). */
module SrecReader {
  import opened Words
  import opened Srec
  import opened SrecBounds

  class Reader {
    var flags: byte
    var byteCount: byte
    var length: nat
    const data: array<byte>
    const mem: array<byte>
    var log: seq<Call>

    /** What the text read so far says about the room left. */
    ghost var scan: Scan

    constructor (mem: array<byte>)
      requires mem.Length == TWO32
      ensures Valid() && this.mem == mem && fresh(data) && log == []
      ensures Tracking() && scan == FRESH
    {
      this.mem := mem;
      data := new byte[MAX_COUNT + 1](i => 0);
      flags, byteCount, length, log, scan := 0, 0, 0, [], FRESH;
    }

    /** The array has room for what comes, as far as the text tells. */
    ghost predicate Tracking()
      reads this, data, mem
    {
      Valid() && Tracks(Current(), scan)
    }

    ghost predicate Valid()
      reads this, data, mem
    {
      data != mem && data.Length == MAX_COUNT + 1 && mem.Length == TWO32 && Shaped(Current())
    }

    ghost function Current(): State
      reads this, data, mem
    {
      State(flags, byteCount, length, data[..], log, mem[..])
    }

    /** `srec_begin_read`. */
    method BeginRead()
      requires Valid()
      modifies this
      ensures Tracking() && scan == FRESH
      ensures Current() == old(Current()).(flags := 0, byteCount := 0, length := 0)
    {
      flags := 0;
      byteCount := 0;
      length := 0;
      scan := FRESH;
    }

    /** `srec_data_read`: what it stores for data records. */
    method DataRead(call: Call)
      requires Valid()
      modifies mem, this`log
      ensures Valid() && Current() == old(Current()).(log := old(log) + [call], mem := Stored(old(mem[..]), call))
    {
      hide StoreWord;
      log := log + [call];
      if IsData(call.kind) {
        var i := 0;
        ghost var was := mem[..];
        while i < |call.payload|
          modifies mem
          invariant 0 <= i <= |call.payload| && mem[..] == StoreBytes(was, call.address, call.payload, i)
        {
          StoreAt(ToWord(call.address + i), call.payload[i]);
          i := i + 1;
        }
      }
    }

    /** One word store, little-endian. */
    method StoreAt(a: word, b: byte)
      requires Valid()
      modifies mem
      ensures mem[..] == StoreWord(old(mem[..]), a, b)
    {
      mem[a] := b;
      mem[ToWord(a + 1)] := 0;
      mem[ToWord(a + 2)] := 0;
      mem[ToWord(a + 3)] := 0;
    }

    /** Adds up the bytes read, starting from their number. */
    method CheckSum() returns (sum: byte)
      requires Valid()
      ensures sum == (length + Sum(data[..length]) + 1) % 256
    {
      hide LowPart, Sum;
      sum := length;
      var r := 0;
      NothingAdded(data[..0]);
      while r != length
        invariant 0 <= r <= length && sum == (length + Sum(data[..r])) % 256
      {
        assert data[..r + 1][..r] == data[..r];
        Summed(length, data[..r + 1]);
        sum := (sum + data[r]) % 256;
        r := r + 1;
      }
      AddedIn(length + Sum(data[..length]), 1);
      sum := (sum + 1) % 256;
    }

    /** Shifts the first n bytes into an address. */
    method AddressField(n: nat) returns (address: word)
      requires Valid() && 0 < n <= 4
      ensures address == Address(data[..n])
    {
      hide Shaped, Address, ToWord;
      address := 0;
      var r := 0;
      NothingShifted(data[..0]);
      while r < n
        invariant 0 <= r <= n && address == Address(data[..r])
      {
        assert data[..r + 1][..r] == data[..r];
        ShiftedIn(data[..r + 1]);
        address := ToWord(address * 256 + data[r]);
        r := r + 1;
      }
    }

    /** `srec_end_read`. */
    method EndRead()
      requires Valid()
      modifies this`flags, this`byteCount, this`length, this`log, mem
      ensures Valid() && Current() == Srec.EndRead(old(Current()))
    {
      hide Address, Sum, Stored;
      if byteCount == 0 {
        return;
      }
      var kind: nat := flags / 16;
      var sum := CheckSum();
      var a := AddressBytes(kind);
      var address := AddressField(a);
      var payload := if length > a then data[a..length - 1] else [];
      DataRead(Call(kind, address, payload, length, byteCount, sum));
      flags := 0;
      length := 0;
      byteCount := 0;
    }

    /** `srec_read_byte`. */
    method ReadByte(c: byte)
      requires Valid() && (Touches(Current(), TokenOf(c)) ==> length <= MAX_COUNT)
      modifies this`flags, this`byteCount, this`length, this`log, data, mem
      ensures Valid() && Current() == Srec.ReadByte(old(Current()), c)
    {
      hide Srec.EndRead;
      var t := TokenOf(c);
      if t.Start? {
        flags := HighPart(flags);
        EndRead();
        EndKeepsFlags(old(Current()));
        flags := flags + 1;
      } else if t.Digit? {
        ReadDigit(t.value);
      }
    }

    method ReadDigit(v: nat)
      requires Valid() && (LowPart(flags) != 1 ==> length <= MAX_COUNT) && v < 16
      modifies this`flags, this`byteCount, this`length, this`log, data, mem
      ensures Valid() && Current() == Srec.ReadDigit(old(Current()), v)
    {
      hide Srec.EndRead, OrNibble, HighPart, LowPart;
      var state := LowPart(flags);
      FlagSplit(flags);
      FlagParts(flags / 16, 0);
      FlagParts(flags / 16, state + 1);
      FlagParts(flags / 16, 5);
      FlagParts(v, 3);
      flags := HighPart(flags);
      state := state + 1;
      if state % 2 == 0 {
        if state != 2 {
          data[length] := v * 16;
        } else {
          state := state + 1;
          flags := v * 16;
        }
      } else {
        var b := OrNibble(data[length], v);
        data[length] := b;
        if state / 2 == 2 {
          byteCount := b;
          if b > MAX_COUNT {
            EndRead();
            return;
          }
        } else if state / 2 == 3 {
          length := length + 1;
          if length < byteCount {
            state := 5;
          } else {
            EndRead();
            return;
          }
        } else {
          return;
        }
      }
      flags := flags + state;
    }

    /** `srec_read_bytes`, on any text that does not lead out of the array. */
    method ReadBytes(chars: seq<byte>)
      requires Tracking() && !Overruns(scan, Tokens(chars))
      modifies this`flags, this`byteCount, this`length, this`log, this`scan, data, mem
      ensures Tracking() && scan == Scanned(old(scan), Tokens(chars))
      ensures Some(Current()) == RunChars(old(Current()), chars)
    {
      hide Srec.ReadByte, Srec.Read, Shaped, Overruns, Tracks, After, GoesIn, Touches, TokenOf;
      var k := 0;
      assert chars[0..] == chars;
      while k < |chars|
        invariant 0 <= k <= |chars| && Tracking() && !Overruns(scan, Tokens(chars[k..]))
        invariant Scanned(scan, Tokens(chars[k..])) == Scanned(old(scan), Tokens(chars))
        invariant RunChars(Current(), chars[k..]) == RunChars(old(Current()), chars)
      {
        assert chars[k..][1..] == chars[k + 1..] && chars[k..][0] == chars[k];
        NextChar(Current(), scan, chars[k..]);
        scan := After(scan, TokenOf(chars[k]));
        ReadByte(chars[k]);
        k := k + 1;
      }
    }
  }

  /** One character of a text that stays in the array. */
  lemma NextChar(s: State, c: Scan, chars: seq<byte>)
    requires Tracks(s, c) && chars != [] && !Overruns(c, Tokens(chars))
    ensures var t := TokenOf(chars[0]);
            var d := After(c, t);
            Shaped(s) && (Touches(s, t) ==> s.length <= MAX_COUNT) && Tracks(Read(s, t), d) &&
            RunChars(s, chars) == RunChars(Read(s, t), chars[1..]) && Srec.ReadByte(s, chars[0]) == Read(s, t) &&
            !Overruns(d, Tokens(chars[1..])) && Scanned(c, Tokens(chars)) == Scanned(d, Tokens(chars[1..]))
  {
    hide Read, Tracks, TokenOf, GoesIn, Touches, Overruns, Scanned;
    var t := TokenOf(chars[0]);
    TracksShaped(s, c);
    RoomShows(s, c, t);
    JunkStaysOut(c, t);
    if t.Junk? {
      assert Tokens(chars) == Tokens(chars[1..]);
      StepTracks(s, c, t);
    } else {
      var toks := Tokens(chars);
      assert toks[0] == t && toks[1..] == Tokens(chars[1..]);
      FirstHasRoom(c, toks);
      StepTracks(s, c, t);
      OverrunsLater(c, toks);
      ScannedNext(c, t, toks[1..]);
      assert toks == [t] + toks[1..];
    }
  }

  lemma JunkStaysOut(c: Scan, t: Token)
    ensures t.Junk? ==> !GoesIn(c, t) && After(c, t) == c
  {
  }

  lemma FirstHasRoom(c: Scan, toks: seq<Token>)
    requires toks != [] && !Overruns(c, toks)
    ensures !(GoesIn(c, toks[0]) && c.zeros > MAX_COUNT)
  {
    assert !OverrunsAt(c, toks, 0);
  }

  lemma NothingAdded(s: seq<byte>)
    requires s == []
    ensures Sum(s) == 0
  {
  }

  lemma AddedIn(n: nat, v: nat)
    ensures (n % 256 + v) % 256 == (n + v) % 256
  {
  }

  /** Another byte added to a checksum. */
  lemma Summed(n: nat, s: seq<byte>)
    requires s != []
    ensures ((n + Sum(s[..|s| - 1])) % 256 + s[|s| - 1]) % 256 == (n + Sum(s)) % 256
  {
    AddedIn(n + Sum(s[..|s| - 1]), s[|s| - 1]);
  }

  lemma NothingShifted(s: seq<byte>)
    requires s == []
    ensures Address(s) == 0
  {
  }

  /** Another byte shifted into an address does not wrap. */
  lemma ShiftedIn(s: seq<byte>)
    requires 0 < |s| <= 4
    ensures ToWord(Address(s[..|s| - 1]) * 256 + s[|s| - 1]) == Address(s)
  {
    BigEndianFits(s);
    BigEndianFits(s[..|s| - 1]);
    Pow256Grows(|s|);
    Pow256Grows(|s| - 1);
  }

  lemma Pow256Grows(n: nat)
    requires n <= 4
    ensures Pow256(n) <= TWO32
  {
    Pow256Four();
    assert n < 4 ==> Pow256(n) <= Pow256(3);
  }

  lemma EndKeepsFlags(s: State)
    requires Shaped(s)
    ensures Srec.EndRead(s.(flags := HighPart(s.flags))).flags <= 240
    ensures LowPart(Srec.EndRead(s.(flags := HighPart(s.flags))).flags) == 0
    ensures LowPart(Srec.EndRead(s.(flags := HighPart(s.flags))).flags + 1) == 1
  {
    hide CallOf, Stored;
  }
}
