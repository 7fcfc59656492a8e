/**
 CRC-32C of libmseed/crc32c.c: byte-wise, slice-by-4 and slice-by-8 loops over a shared table.
 The polynomial is the reflected Castagnoli polynomial of section 12.1 of RFC 3720.
 */
module Crc32c {
  import opened Bits

  const CRC32C_POLYNOMIAL: Word := 0x82F6_3B78

  /** The polynomial with its leading term, first transmitted digit lowest. */
  const GENERATOR: nat := 0x1_05EC_76F1

  // ----- The register, one bit at a time -----

  function Shift(c: nat): nat {
    if c % 2 == 1 then Xor(c / 2, CRC32C_POLYNOMIAL) else c / 2
  }

  function Shifts(c: nat, n: nat): nat
    decreases n, c
  {
    if n == 0 then c else Shifts(Shift(c), n - 1)
  }

  lemma ShiftIsLinear(a: nat, b: nat)
    ensures Shift(Xor(a, b)) == Xor(Shift(a), Shift(b))
  {
    var g, h, p := a / 2, b / 2, CRC32C_POLYNOMIAL;
    XorDigit(a, b);
    XorZero(h);
    XorExchange(g, h, p, p);
    XorSelf(p);
    XorZero(Xor(g, h));
    XorAssociates(g, h, p);
    XorAssociates(g, p, h);
    XorCommutes(h, p);
  }

  lemma {:induction false} ShiftsAreLinear(a: nat, b: nat, n: nat)
    ensures Shifts(Xor(a, b), n) == Xor(Shifts(a, n), Shifts(b, n))
    decreases n
  {
    if n > 0 {
      ShiftIsLinear(a, b);
      ShiftsAreLinear(Shift(a), Shift(b), n - 1);
    }
  }

  lemma {:induction false} ShiftsCompose(c: nat, m: nat, n: nat)
    ensures Shifts(Shifts(c, m), n) == Shifts(c, m + n)
    decreases m
  {
    if m > 0 {
      ShiftsCompose(Shift(c), m - 1, n);
    }
  }

  lemma {:induction false} ShiftsUndoShl(a: nat, n: nat)
    ensures Shifts(Shl(a, n), n) == a
  {
    if n > 0 {
      ShiftsUndoShl(a, n - 1);
    }
  }

  lemma {:induction false} ShiftsOfWord(c: Word, n: nat)
    ensures Shifts(c, n) < 0x1_0000_0000
    decreases n
  {
    if n > 0 {
      XorWords(c / 2, CRC32C_POLYNOMIAL);
      ShiftsOfWord(Shift(c), n - 1);
    }
  }

  /** A nonzero register never becomes zero, because the polynomial's top digit records the lost one. */
  lemma {:induction false} ShiftsNeverVanish(c: Word, n: nat)
    requires c != 0
    ensures Shifts(c, n) != 0
    decreases n
  {
    if n > 0 {
      XorIsZero(c / 2, CRC32C_POLYNOMIAL);
      XorWords(c / 2, CRC32C_POLYNOMIAL);
      ShiftsNeverVanish(Shift(c), n - 1);
    }
  }

  // ----- The tables -----

  /** Entry `i` of slice `k`; slice 0 is eight bit steps and each further slice one more byte step. */
  function Table(k: nat, i: Byte): nat {
    if k == 0 then Shifts(i, 8)
    else var t := Table(k - 1, i); Xor(t / 0x100, Shifts(t % 0x100, 8))
  }

  lemma HighBytesShiftOut(c: nat)
    ensures Shifts(c, 8) == Xor(c / 0x100, Shifts(c % 0x100, 8))
  {
    ShlValues(1);
    ShlValues(c / 0x100);
    XorDisjoint(c / 0x100, c % 0x100, 8);
    ShiftsAreLinear(Shl(c / 0x100, 8), c % 0x100, 8);
    ShiftsUndoShl(c / 0x100, 8);
  }

  lemma {:induction false} TableIsShifts(k: nat, i: Byte)
    ensures Table(k, i) == Shifts(i, 8 * (k + 1))
    ensures Table(k, i) < 0x1_0000_0000
  {
    if k > 0 {
      TableIsShifts(k - 1, i);
      HighBytesShiftOut(Table(k - 1, i));
      ShiftsCompose(i, 8 * k, 8);
    }
    ShiftsOfWord(i, 8 * (k + 1));
  }

  // ----- The byte-at-a-time register -----

  function ByteStep(c: nat, b: Byte): nat {
    XorBytes(c % 0x100, b);
    Xor(c / 0x100, Table(0, Xor(c % 0x100, b)))
  }

  /** The register after a whole input, one byte at a time. */
  function Feed(c: nat, s: seq<Byte>): nat
    decreases |s|
  {
    if s == [] then c else Feed(ByteStep(c, s[0]), s[1..])
  }

  /** The input as one number, first byte lowest: a little-endian load of any width. */
  function LittleEndian(s: seq<Byte>): nat {
    if s == [] then 0 else s[0] + 0x100 * LittleEndian(s[1..])
  }

  /** Eight bit steps on the register with the byte folded in are one byte step. */
  lemma ByteStepIsShifts(c: nat, b: Byte)
    ensures ByteStep(c, b) == Shifts(Xor(c, b), 8)
  {
    XorLowByte(c, b);
    HighBytesShiftOut(Xor(c, b));
  }

  lemma XorLowByte(c: nat, b: Byte)
    ensures Xor(c, b) / 0x100 == c / 0x100
    ensures Xor(c, b) % 0x100 == Xor(c % 0x100, b)
  {
    var high, low := c / 0x100, c % 0x100;
    ShlValues(1);
    ShlValues(high);
    XorDisjoint(high, low, 8);
    XorAssociates(Shl(high, 8), low, b);
    XorBytes(low, b);
    XorDisjoint(high, Xor(low, b), 8);
  }

  /** One byte step consumes the lowest byte of the number folded into the register. */
  lemma ByteStepConsumes(c: nat, b: Byte, rest: nat)
    ensures Shifts(Xor(c, b + 0x100 * rest), 8) == Xor(ByteStep(c, b), rest)
  {
    ShlValues(1);
    ShlValues(rest);
    XorDisjoint(rest, b, 8);
    XorCommutes(Shl(rest, 8), b);
    XorAssociates(c, b, Shl(rest, 8));
    ShiftsAreLinear(Xor(c, b), Shl(rest, 8), 8);
    ShiftsUndoShl(rest, 8);
    ByteStepIsShifts(c, b);
  }

  lemma ShiftsOneMoreByte(x: nat, y: nat, n: nat)
    requires Shifts(x, 8) == y
    ensures Shifts(x, 8 * (n + 1)) == Shifts(y, 8 * n)
  {
    ShiftsCompose(x, 8, 8 * n);
  }

  /** The register after any input is the whole input, as one number, shifted out bit by bit. */
  lemma {:induction false} FeedIsShifts(c: nat, s: seq<Byte>)
    ensures Feed(c, s) == Shifts(Xor(c, LittleEndian(s)), 8 * |s|)
    decreases |s|
  {
    if s == [] {
      XorZero(c);
    } else {
      var x, y := Xor(c, LittleEndian(s)), Xor(ByteStep(c, s[0]), LittleEndian(s[1..]));
      ByteStepConsumes(c, s[0], LittleEndian(s[1..]));
      FeedIsShifts(ByteStep(c, s[0]), s[1..]);
      ShiftsOneMoreByte(x, y, |s[1..]|);
    }
  }

  lemma FeedOfWord(c: Word, s: seq<Byte>)
    ensures Feed(c, s) < 0x1_0000_0000
    decreases |s|
  {
    if s != [] {
      XorWithByteIsWord(c, s[0]);
      ByteStepIsShifts(c, s[0]);
      ShiftsOfWord(Xor(c, s[0]), 8);
      FeedOfWord(ByteStep(c, s[0]), s[1..]);
    }
  }

  lemma XorWithByteIsWord(c: Word, b: Byte)
    ensures Xor(c, b) < 0x1_0000_0000
  {
    XorWords(c, b);
  }

  lemma {:induction false} FeedConcat(c: nat, s: seq<Byte>, t: seq<Byte>)
    ensures Feed(c, s + t) == Feed(Feed(c, s), t)
    decreases |s|
  {
    if s == [] {
      assert s + t == t;
    } else {
      assert (s + t)[1..] == s[1..] + t;
      FeedConcat(ByteStep(c, s[0]), s[1..], t);
    }
  }

  // ----- Slices -----

  /** Four table entries, highest slice on the lowest byte, make 32 bit steps on top of `8 * k` more. */
  function FourSlices(k: nat, x: Word): nat {
    Xor(Xor(Xor(Table(k + 3, x % 0x100), Table(k + 2, x / 0x100 % 0x100)),
            Table(k + 1, x / 0x1_0000 % 0x100)),
        Table(k, x / 0x100_0000))
  }

  lemma SliceOfByte(b: Byte, k: nat, j: nat)
    ensures Shifts(Shl(b, 8 * j), 8 * (k + 1 + j)) == Table(k, b)
  {
    ShiftsUndoShl(b, 8 * j);
    ShiftsCompose(Shl(b, 8 * j), 8 * j, 8 * (k + 1));
    TableIsShifts(k, b);
  }

  lemma XorAbove(low: nat, high: nat, n: nat)
    requires low < Shl(1, n)
    ensures Xor(low, Shl(high, n)) == low + Shl(high, n)
  {
    XorDisjoint(high, low, n);
    XorCommutes(Shl(high, n), low);
  }

  lemma JoinSecondByte(b0: Byte, b1: Byte)
    ensures Xor(b0, Shl(b1, 8)) == b0 + 0x100 * b1
  {
    ShlValues(1);
    ShlValues(b1);
    XorAbove(b0, b1, 8);
  }

  lemma JoinThirdByte(low: nat, b2: Byte)
    requires low < 0x1_0000
    ensures Xor(low, Shl(b2, 16)) == low + 0x1_0000 * b2
  {
    ShlValues(1);
    ShlValues(b2);
    XorAbove(low, b2, 16);
  }

  lemma JoinFourthByte(low: nat, b3: Byte)
    requires low < 0x100_0000
    ensures Xor(low, Shl(b3, 24)) == low + 0x100_0000 * b3
  {
    ShlValues(1);
    ShlValues(b3);
    XorAbove(low, b3, 24);
  }

  lemma FourBytesJoin(b0: Byte, b1: Byte, b2: Byte, b3: Byte)
    ensures Xor(Xor(Xor(b0, Shl(b1, 8)), Shl(b2, 16)), Shl(b3, 24))
         == b0 + 0x100 * b1 + 0x1_0000 * b2 + 0x100_0000 * b3
  {
    JoinSecondByte(b0, b1);
    JoinThirdByte(b0 + 0x100 * b1, b2);
    JoinFourthByte(b0 + 0x100 * b1 + 0x1_0000 * b2, b3);
  }

  lemma FourShifts(p: nat, q: nat, r: nat, s: nat, n: nat)
    ensures Shifts(Xor(Xor(Xor(p, q), r), s), n)
         == Xor(Xor(Xor(Shifts(p, n), Shifts(q, n)), Shifts(r, n)), Shifts(s, n))
  {
    ShiftsAreLinear(p, q, n);
    ShiftsAreLinear(Xor(p, q), r, n);
    ShiftsAreLinear(Xor(Xor(p, q), r), s, n);
  }

  lemma FourSlicesOfBytes(k: nat, b0: Byte, b1: Byte, b2: Byte, b3: Byte)
    ensures Xor(Xor(Xor(Table(k + 3, b0), Table(k + 2, b1)), Table(k + 1, b2)), Table(k, b3))
         == Shifts(b0 + 0x100 * b1 + 0x1_0000 * b2 + 0x100_0000 * b3, 8 * (k + 4))
  {
    FourBytesJoin(b0, b1, b2, b3);
    FourShifts(b0, Shl(b1, 8), Shl(b2, 16), Shl(b3, 24), 8 * (k + 4));
    SliceOfByte(b0, k + 3, 0);
    SliceOfByte(b1, k + 2, 1);
    SliceOfByte(b2, k + 1, 2);
    SliceOfByte(b3, k, 3);
  }

  lemma BytesOfWord(x: Word) returns (b0: Byte, b1: Byte, b2: Byte, b3: Byte)
    ensures b0 == x % 0x100 && b1 == x / 0x100 % 0x100 && b2 == x / 0x1_0000 % 0x100 && b3 == x / 0x100_0000
    ensures x == b0 + 0x100 * b1 + 0x1_0000 * b2 + 0x100_0000 * b3
  {
    var q1, q2 := x / 0x100, x / 0x1_0000;
    b0, b1, b2, b3 := x % 0x100, q1 % 0x100, q2 % 0x100, x / 0x100_0000;
    assert q1 / 0x100 == q2 && q2 / 0x100 == b3;
  }

  lemma FourSlicesAreShifts(k: nat, x: Word)
    ensures FourSlices(k, x) == Shifts(x, 8 * (k + 4))
  {
    var b0, b1, b2, b3 := BytesOfWord(x);
    FourSlicesOfBytes(k, b0, b1, b2, b3);
  }

  // ----- The loops of the source -----

  /** A 32-bit load on a little-endian host; the address must be a multiple of four. */
  method LoadWord(input: array<Byte>, address: nat, p: nat) returns (w: Word)
    requires p + 4 <= input.Length
    requires (address + p) % 4 == 0
    ensures w == LittleEndian(input[p..p + 4])
  {
    w := input[p] as nat + 0x100 * input[p + 1] as nat
         + 0x1_0000 * input[p + 2] as nat + 0x100_0000 * input[p + 3] as nat;
    LittleEndianOfFour(input[p..p + 4]);
  }

  lemma LittleEndianOfFour(s: seq<Byte>)
    requires |s| == 4
    ensures LittleEndian(s) == s[0] as nat + 0x100 * s[1] as nat + 0x1_0000 * s[2] as nat + 0x100_0000 * s[3] as nat
  {
    var t := s[1..];
    var u := t[1..];
    var v := u[1..];
    assert LittleEndian(s) == s[0] + 0x100 * LittleEndian(t);
    assert LittleEndian(t) == s[1] + 0x100 * LittleEndian(u);
    assert LittleEndian(u) == s[2] + 0x100 * LittleEndian(v);
    assert LittleEndian(v) == s[3] + 0x100 * LittleEndian([]);
  }

  lemma FeedNothing(c: nat, s: seq<Byte>, i: nat)
    requires i <= |s|
    ensures Feed(c, s[i..i]) == c
  {}

  lemma FeedRange(c: nat, s: seq<Byte>, i: nat, j: nat, k: nat)
    requires i <= j <= k <= |s|
    ensures Feed(c, s[i..k]) == Feed(Feed(c, s[i..j]), s[j..k])
  {
    assert s[i..k] == s[i..j] + s[j..k];
    FeedConcat(c, s[i..j], s[j..k]);
  }

  /** `s_crc_generic_sb1`: one table lookup a byte. */
  method GenericSb1(input: array<Byte>, start: nat, length: int, previous: Word) returns (crc: Word)
    requires start + length <= input.Length && start <= input.Length
    ensures crc == Feed(previous, input[start..start + if length < 0 then 0 else length])
  {
    crc := previous;
    var p, remaining := start, length;
    while remaining > 0
      invariant start <= p <= input.Length
      invariant 0 < length ==> 0 <= remaining && p + remaining == start + length
      invariant length <= 0 ==> p == start && remaining == length
      invariant crc == Feed(previous, input[start..p])
    {
      FeedRange(previous, input[..], start, p, p + 1);
      assert input[..][start..p] == input[start..p] && input[..][start..p + 1] == input[start..p + 1];
      FeedOne(crc, input[p]);
      assert input[..][p..p + 1] == [input[p]];
      crc := ByteStep(crc, input[p]);
      p, remaining := p + 1, remaining - 1;
    }
  }

  lemma FeedOne(c: Word, b: Byte)
    ensures Feed(c, [b]) == ByteStep(c, b) < 0x1_0000_0000
  {
    assert Feed(c, [b]) == Feed(ByteStep(c, b), []);
    FeedOfWord(c, [b]);
  }

  /** `s_crc_generic_align`: bytes before the first multiple of four, unless that is the whole input. */
  method GenericAlign(input: array<Byte>, address: nat, start: nat, length: nat, previous: Word)
    returns (crc: Word, p: nat, remaining: nat)
    requires start + length <= input.Length
    ensures start <= p && p + remaining == start + length
    ensures crc == Feed(previous, input[start..p])
    ensures remaining >= 4 ==> (address + p) % 4 == 0
  {
    hide *;
    var leading := LeadingBytes(address + start);
    crc, p, remaining := previous, start, length;
    FeedNothing(previous, input[..], start);
    assert input[start..start] == input[..][start..start];
    if leading != 0 && length - leading > 0 {
      crc := GenericSb1(input, start, leading, previous);
      p, remaining := start + leading, length - leading;
    }
  }

  function LeadingBytes(address: nat): (leading: nat)
    ensures leading < 4 && (address + leading) % 4 == 0
  {
    (4 - address % 4) % 4
  }

  /** One turn of the slice-by-4 loop. */
  method Sb4Turn(input: array<Byte>, address: nat, current: nat, previous: Word) returns (crc: Word)
    requires current + 4 <= input.Length && (address + current) % 4 == 0
    ensures crc == Feed(previous, input[current..current + 4])
  {
    var w := LoadWord(input, address, current);
    FeedWord(previous, w, input[current..current + 4]);
    crc := Xor(previous, w);
    FeedOfWord(previous, input[current..current + 4]);
    crc := FourSlices(0, crc);
  }

  /** `s_crc_generic_sb4`: one aligned word at a time, then the last bytes. */
  method GenericSb4(input: array<Byte>, address: nat, start: nat, length: nat, previous: Word) returns (crc: Word)
    requires start + length <= input.Length
    requires length >= 4 ==> (address + start) % 4 == 0
    ensures crc == Feed(previous, input[start..start + length])
  {
    hide *;
    ghost var s := input[..];
    FeedNothing(previous, s, start);
    crc := previous;
    var current, remaining := start, length;
    while remaining >= 4
      invariant start <= current && current + remaining == start + length
      invariant remaining >= 4 ==> (address + current) % 4 == 0
      invariant crc == Feed(previous, s[start..current])
    {
      FeedRange(previous, s, start, current, current + 4);
      assert s[current..current + 4] == input[current..current + 4];
      crc := Sb4Turn(input, address, current, crc);
      current, remaining := current + 4, remaining - 4;
    }
    FeedRange(previous, s, start, current, start + length);
    crc := GenericSb1(input, start + length - remaining, remaining, crc);
    assert s[current..start + length] == input[current..start + length];
    assert s[start..start + length] == input[start..start + length];
  }

  /** The slice-by-4 step is four byte steps. */
  lemma FeedWord(c: Word, w: Word, s: seq<Byte>)
    requires |s| == 4 && w == LittleEndian(s)
    ensures Xor(c, w) < 0x1_0000_0000
    ensures FourSlices(0, Xor(c, w)) == Feed(c, s)
  {
    XorWords(c, w);
    FourSlicesAreShifts(0, Xor(c, w));
    FeedIsShifts(c, s);
  }

  /** One turn of the slice-by-8 loop. */
  method Sb8Turn(input: array<Byte>, address: nat, current: nat, previous: Word) returns (crc: Word)
    requires current + 8 <= input.Length && (address + current) % 4 == 0
    ensures crc == Feed(previous, input[current..current + 8])
  {
    var w1 := LoadWord(input, address, current);
    var w2 := LoadWord(input, address, current + 4);
    ghost var first, second := input[current..current + 4], input[current + 4..current + 8];
    FeedTwoWords(previous, w1, w2, first, second);
    FeedOfWord(previous, first + second);
    assert input[current..current + 8] == first + second;
    var c1 := Xor(w1, previous);
    crc := Xor(FourSlices(4, c1), FourSlices(0, w2));
  }

  /** `s_crc_generic_sb8`: two aligned words at a time, then slice-by-4. */
  method GenericSb8(input: array<Byte>, address: nat, start: nat, length: nat, previous: Word) returns (crc: Word)
    requires start + length <= input.Length
    requires length >= 4 ==> (address + start) % 4 == 0
    ensures crc == Feed(previous, input[start..start + length])
  {
    hide *;
    ghost var s := input[..];
    FeedNothing(previous, s, start);
    crc := previous;
    var current, remaining := start, length;
    while remaining >= 8
      invariant start <= current && current + remaining == start + length
      invariant remaining >= 4 ==> (address + current) % 4 == 0
      invariant crc == Feed(previous, s[start..current])
    {
      FeedRange(previous, s, start, current, current + 8);
      assert s[current..current + 8] == input[current..current + 8];
      crc := Sb8Turn(input, address, current, crc);
      current, remaining := current + 8, remaining - 8;
    }
    FeedRange(previous, s, start, current, start + length);
    crc := GenericSb4(input, address, start + length - remaining, remaining, crc);
    assert s[current..start + length] == input[current..start + length];
    assert s[start..start + length] == input[start..start + length];
  }

  /** The slice-by-8 step is eight byte steps. */
  lemma FeedTwoWords(c: Word, w1: Word, w2: Word, s: seq<Byte>, t: seq<Byte>)
    requires |s| == |t| == 4 && w1 == LittleEndian(s) && w2 == LittleEndian(t)
    ensures Xor(w1, c) < 0x1_0000_0000
    ensures Xor(FourSlices(4, Xor(w1, c)), FourSlices(0, w2)) == Feed(c, s + t)
  {
    hide *;
    XorWords(w1, c);
    XorCommutes(w1, c);
    var c1 := Xor(c, w1);
    FeedConcat(c, s, t);
    FeedIsShifts(c, s);
    FeedIsShifts(Feed(c, s), t);
    ShiftsAreLinear(Shifts(c1, 32), w2, 32);
    ShiftsCompose(c1, 32, 32);
    FourSlicesAreShifts(4, c1);
    FourSlicesAreShifts(0, w2);
  }

  /** The checksum of a whole input on top of the checksum of what came before it. */
  function Crc(s: seq<Byte>, previous: Word): Word {
    FeedOfWord(Complement(previous), s);
    Complement(Feed(Complement(previous), s))
  }

  /** `ms_crc32c`: whatever the host's byte order and the input's address, one checksum. */
  method MsCrc32c(input: array?<Byte>, address: nat, length: int, previous: Word, bigEndianHost: bool)
    returns (crc: Word)
    requires input != null ==> length <= input.Length
    ensures crc == if input == null || length <= 0 then 0 else Crc(input[..length], previous)
  {
    if input == null || length <= 0 {
      return 0;
    }
    assert input[..length] == input[0..length];
    if bigEndianHost {
      crc := GenericSb1(input, 0, length, Complement(previous));
      return Complement(crc);
    }
    var p, remaining;
    crc, p, remaining := GenericAlign(input, address, 0, length, Complement(previous));
    FeedConcat(Complement(previous), input[0..p], input[p..length]);
    assert input[0..length] == input[0..p] + input[p..length];
    crc := GenericSb8(input, address, p, remaining, crc);
    crc := Complement(crc);
  }
}
