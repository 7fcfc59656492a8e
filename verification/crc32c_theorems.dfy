/** What the checksum is for: it is a polynomial remainder, it can be resumed, and it detects errors. */
module Crc32cTheorems {
  import opened Bits
  import opened Crc32c

  // ----- Resuming -----

  /** Feeding a second input on top of the first one's checksum checks their concatenation. */
  lemma CrcResumes(s: seq<Byte>, t: seq<Byte>, previous: Word)
    ensures Crc(s + t, previous) == Crc(t, Crc(s, previous))
  {
    FeedOfWord(Complement(previous), s);
    FeedConcat(Complement(previous), s, t);
  }

  // ----- Division by the generator polynomial -----

  /** Product of polynomials over the two-element field, one coefficient a binary digit. */
  function CarrylessProduct(q: nat, p: nat): nat {
    if q == 0 then 0 else Xor(if q % 2 == 1 then p else 0, 2 * CarrylessProduct(q / 2, p))
  }

  /** The quotient digits of long division: one for every register bit shifted out. */
  function Quotient(c: nat, n: nat): nat
    decreases n, c
  {
    if n == 0 then 0 else c % 2 + 2 * Quotient(Shift(c), n - 1)
  }

  lemma ShiftSubtractsGenerator(c: nat)
    ensures c == Xor(if c % 2 == 1 then GENERATOR else 0, 2 * Shift(c))
  {
    if c % 2 == 1 {
      var h, g, p := c / 2, GENERATOR, CRC32C_POLYNOMIAL;
      XorDigit(g, 2 * Xor(h, p));
      XorCommutes(h, p);
      XorCancels(p, h);
    } else {
      XorZero(c);
    }
  }

  lemma QuotientStep(c: nat, n: nat)
    requires n > 0
    ensures Quotient(c, n) % 2 == c % 2 && Quotient(c, n) / 2 == Quotient(Shift(c), n - 1)
  {
    JoinDigit(c % 2, Quotient(Shift(c), n - 1));
  }

  lemma ProductStep(q: nat, p: nat)
    ensures CarrylessProduct(q, p) == Xor(if q % 2 == 1 then p else 0, 2 * CarrylessProduct(q / 2, p))
  {
    if q == 0 {
      XorZero(0);
    }
  }

  /** Existence: register and input together differ from the remainder, moved up, by a multiple of the generator. */
  lemma {:induction false} ShiftsDivide(c: nat, n: nat)
    ensures Xor(c, Shl(Shifts(c, n), n)) == CarrylessProduct(Quotient(c, n), GENERATOR)
    ensures Quotient(c, n) < Shl(1, n)
    decreases n
  {
    if n == 0 {
      XorSelf(c);
    } else {
      var s := Shift(c);
      var top, rest := if c % 2 == 1 then GENERATOR else 0, Shl(Shifts(s, n - 1), n - 1);
      ShiftsDivide(s, n - 1);
      ShiftSubtractsGenerator(c);
      XorAssociates(top, 2 * s, 2 * rest);
      XorDoubles(s, rest);
      QuotientStep(c, n);
      ProductStep(Quotient(c, n), GENERATOR);
    }
  }

  /** The generator is odd, so a product's lowest digit is the quotient's. */
  lemma HalveProduct(q: nat, half: nat)
    requires CarrylessProduct(q, GENERATOR) == 2 * half
    ensures q % 2 == 0 && CarrylessProduct(q / 2, GENERATOR) == half
  {
    hide Xor, CarrylessProduct;
    var rest := CarrylessProduct(q / 2, GENERATOR);
    ProductStep(q, GENERATOR);
    if q % 2 == 1 {
      XorDigit(GENERATOR, 2 * rest);
    } else {
      XorZero(2 * rest);
    }
  }

  /** A multiple of the generator by fewer than `n` digits that has `n` low zero digits is zero. */
  lemma {:induction false} SmallMultiplesVanish(q: nat, d: nat, n: nat)
    requires q < Shl(1, n)
    requires CarrylessProduct(q, GENERATOR) == Shl(d, n)
    ensures q == 0
    decreases n
  {
    if n > 0 {
      HalveProduct(q, Shl(d, n - 1));
      SmallMultiplesVanish(q / 2, d, n - 1);
    }
  }

  lemma {:induction false} ProductDistributes(q: nat, r: nat, p: nat)
    ensures CarrylessProduct(Xor(q, r), p) == Xor(CarrylessProduct(q, p), CarrylessProduct(r, p))
    decreases q + r
  {
    if q + r == 0 {
      XorZero(0);
    } else {
      var x := Xor(q, r);
      var a, b := if q % 2 == 1 then p else 0, if r % 2 == 1 then p else 0;
      var g, h := CarrylessProduct(q / 2, p), CarrylessProduct(r / 2, p);
      ProductStep(x, p);
      ProductStep(q, p);
      ProductStep(r, p);
      XorDigit(q, r);
      ProductDistributes(q / 2, r / 2, p);
      XorDoubles(g, h);
      XorExchange(a, 2 * g, b, 2 * h);
      XorSelf(p);
      XorZero(p);
      XorZero(0);
    }
  }

  /** `r`, moved past the input, completes register and input to a multiple of the generator. */
  ghost predicate IsRemainder(c: Word, s: seq<Byte>, r: Word) {
    exists q: nat :: Completes(c, s, r, q)
  }

  ghost predicate Completes(c: Word, s: seq<Byte>, r: Word, q: nat) {
    q < Shl(1, 8 * |s|) &&
    Xor(Xor(c, LittleEndian(s)), Shl(r, 8 * |s|)) == CarrylessProduct(q, GENERATOR)
  }

  lemma RemaindersAgree(c: Word, s: seq<Byte>, r: Word, q: nat, r': Word, q': nat)
    requires Completes(c, s, r, q) && Completes(c, s, r', q')
    ensures r == r'
  {
    var x, n := Xor(c, LittleEndian(s)), 8 * |s|;
    XorExchange(x, Shl(r, n), x, Shl(r', n));
    XorSelf(x);
    XorZero(Xor(Shl(r, n), Shl(r', n)));
    XorScales(r, r', n);
    ProductDistributes(q, q', GENERATOR);
    XorBound(q, q', n);
    SmallMultiplesVanish(Xor(q, q'), Xor(r, r'), n);
    assert Shl(Xor(r, r'), n) == 0;
    ShlVanishes(Xor(r, r'), n);
    XorIsZero(r, r');
  }

  lemma {:induction false} ShlVanishes(d: nat, n: nat)
    ensures Shl(d, n) == 0 <==> d == 0
  {
    if n > 0 {
      ShlVanishes(d, n - 1);
    }
  }

  /** The byte-at-a-time register is the remainder of division by the Castagnoli polynomial, and the only one. */
  lemma RegisterIsTheRemainder(c: Word, s: seq<Byte>, r: Word)
    ensures IsRemainder(c, s, r) <==> r == Feed(c, s)
  {
    var x, n := Xor(c, LittleEndian(s)), 8 * |s|;
    FeedOfWord(c, s);
    FeedIsShifts(c, s);
    ShiftsDivide(x, n);
    assert Completes(c, s, Feed(c, s), Quotient(x, n));
    if IsRemainder(c, s, r) {
      var q :| Completes(c, s, r, q);
      RemaindersAgree(c, s, r, q, Feed(c, s), Quotient(x, n));
    }
  }

  /** `q` is a quotient, and `r` the remainder, of the bytes with `c` in front on division by the generator
      x^32 + x^28 + x^27 + x^26 + x^25 + x^23 + x^22 + x^20 + x^19 + x^18 + x^14 + x^13 + x^11 + x^10 + x^9 + x^8 + x^6
      + 1, least significant digit first. */
  ghost predicate Divides(c: nat, s: seq<Byte>, r: Word, q: nat) {
    q < Shl(1, 8 * |s|) && Xor(Xor(c, LittleEndian(s)), Shl(r, 8 * |s|)) == CarrylessProduct(q, 0x1_05EC_76F1)
  }

  /** Hence the checksum, with the inversions before and after: the complement of the remainder that the bytes, after
      the complement of the previous checksum, leave on division by the generator. */
  lemma ChecksumIsTheRemainder(s: seq<Byte>, previous: Word, r: Word)
    ensures var c := 0xFFFF_FFFF - previous;
            (exists q: nat :: Divides(c, s, r, q)) <==> Crc(s, previous) as nat + r == 0xFFFF_FFFF
  {
    hide Xor, Shl, CarrylessProduct, LittleEndian, Feed;
    var c: Word := 0xFFFF_FFFF - previous;
    FeedOfWord(c, s);
    RegisterIsTheRemainder(c, s, r);
    assert Crc(s, previous) as nat + Feed(c, s) == 0xFFFF_FFFF;
    if IsRemainder(c, s, r) {
      var q :| Completes(c, s, r, q);
      assert Divides(c, s, r, q);
    } else {
      forall q: nat
        ensures !Divides(c, s, r, q)
      {
        assert !Completes(c, s, r, q);
      }
    }
  }

  // ----- The register step is a bijection -----

  lemma RegisterStepIsInjective(c: Word, d: Word, s: seq<Byte>)
    requires Feed(c, s) == Feed(d, s)
    ensures c == d
  {
    var m := LittleEndian(s);
    FeedIsShifts(c, s);
    FeedIsShifts(d, s);
    ShiftsAreLinear(Xor(c, m), Xor(d, m), 8 * |s|);
    XorExchange(c, m, d, m);
    XorSelf(m);
    XorZero(Xor(c, d));
    XorSelf(Feed(c, s));
    XorWords(c, d);
    if Xor(c, d) != 0 {
      ShiftsNeverVanish(Xor(c, d), 8 * |s|);
    }
    XorIsZero(c, d);
  }

  /** Undoes one register bit: the top digit tells whether the polynomial was added. */
  function Unshift(w: Word): Word {
    XorWords(w, CRC32C_POLYNOMIAL);
    TopDigitCleared(w);
    if w >= 0x8000_0000 then 2 * Xor(w, CRC32C_POLYNOMIAL) + 1 else 2 * w
  }

  lemma TopDigitCleared(w: Word)
    ensures w >= 0x8000_0000 ==> Xor(w, CRC32C_POLYNOMIAL) < 0x8000_0000
  {
    if w >= 0x8000_0000 {
      var a, b, t := w - 0x8000_0000, CRC32C_POLYNOMIAL - 0x8000_0000, 0x8000_0000;
      TopDigit(a);
      TopDigit(b);
      XorExchange(t, a, t, b);
      XorSelf(t);
      XorZero(Xor(a, b));
      Below31();
      XorBound(a, b, 31);
    }
  }

  lemma Below31()
    ensures Shl(1, 31) == 0x8000_0000
  {
    ShlValues(1);
    assert Shl(1, 32) == 2 * Shl(1, 31);
  }

  lemma TopDigit(a: nat)
    requires a < 0x8000_0000
    ensures Xor(0x8000_0000, a) == 0x8000_0000 + a
  {
    Below31();
    XorDisjoint(1, a, 31);
  }

  lemma UnshiftUndone(w: Word)
    ensures Shift(Unshift(w)) == w
  {
    XorCommutes(w, CRC32C_POLYNOMIAL);
    XorCancels(CRC32C_POLYNOMIAL, w);
    XorCommutes(CRC32C_POLYNOMIAL, Xor(w, CRC32C_POLYNOMIAL));
  }

  lemma {:induction false} ShiftsReach(w: Word, n: nat) returns (c: Word)
    ensures Shifts(c, n) == w
    decreases n
  {
    if n == 0 {
      c := w;
    } else {
      c := ShiftsReach(w, n - 1);
      UnshiftUndone(c);
      c := Unshift(c);
    }
  }

  /** For a fixed byte, every register value is reached. */
  lemma ByteStepReaches(w: Word, b: Byte) returns (c: Word)
    ensures ByteStep(c, b) == w
  {
    var x := ShiftsReach(w, 8);
    XorWords(x, b);
    c := Xor(x, b);
    XorCommutes(x, b);
    XorCancels(b, x);
    XorCommutes(b, c);
    ByteStepIsShifts(c, b);
  }

  // ----- Error detection -----

  /** The registers of two inputs of one length differ by the shifted-out difference of the inputs. */
  lemma FeedDifference(c: Word, s: seq<Byte>, t: seq<Byte>)
    requires |s| == |t|
    ensures Xor(Feed(c, s), Feed(c, t)) == Shifts(Xor(LittleEndian(s), LittleEndian(t)), 8 * |s|)
  {
    var m, l := LittleEndian(s), LittleEndian(t);
    FeedIsShifts(c, s);
    FeedIsShifts(c, t);
    ShiftsAreLinear(Xor(c, m), Xor(c, l), 8 * |s|);
    XorExchange(c, m, c, l);
    XorSelf(c);
    XorZero(Xor(m, l));
  }

  lemma CrcsDiffer(s: seq<Byte>, t: seq<Byte>, previous: Word)
    requires |s| == |t|
    requires Shifts(Xor(LittleEndian(s), LittleEndian(t)), 8 * |s|) != 0
    ensures Crc(s, previous) != Crc(t, previous)
  {
    var c := Complement(previous);
    FeedDifference(c, s, t);
    FeedOfWord(c, s);
    FeedOfWord(c, t);
    XorSelf(Feed(c, s));
  }

  lemma {:induction false} LittleEndianBound(s: seq<Byte>)
    ensures LittleEndian(s) < Shl(1, 8 * |s|)
  {
    if s != [] {
      LittleEndianBound(s[1..]);
      ShlByte(1, 8 * |s[1..]|);
    }
  }

  lemma {:induction false} ShlGrows(d: nat, m: nat, n: nat)
    requires d > 0 && Shl(d, m) < Shl(1, n)
    ensures m <= n
    decreases m
  {
    if m > 0 && n > 0 {
      ShlGrows(d, m - 1, n - 1);
    } else if m > 0 {
      ShlVanishes(d, m);
    }
  }

  /** Every burst error of at most 32 bits, wherever it starts, changes the checksum. */
  lemma BurstsAreDetected(s: seq<Byte>, t: seq<Byte>, burst: Word, position: nat, previous: Word)
    requires |s| == |t| && burst != 0
    requires Xor(LittleEndian(s), LittleEndian(t)) == Shl(burst, position)
    ensures Crc(s, previous) != Crc(t, previous)
  {
    var n := 8 * |s|;
    LittleEndianBound(s);
    LittleEndianBound(t);
    XorBound(LittleEndian(s), LittleEndian(t), n);
    ShlGrows(burst, position, n);
    ShiftsUndoShl(burst, position);
    ShiftsCompose(Shl(burst, position), position, n - position);
    ShiftsNeverVanish(burst, n - position);
    CrcsDiffer(s, t, previous);
  }

  lemma {:induction false} LittleEndianInjective(s: seq<Byte>, t: seq<Byte>)
    requires |s| == |t| && LittleEndian(s) == LittleEndian(t)
    ensures s == t
  {
    if s != [] {
      assert s[0] == LittleEndian(s) % 0x100 && LittleEndian(s[1..]) == LittleEndian(s) / 0x100;
      assert t[0] == LittleEndian(t) % 0x100 && LittleEndian(t[1..]) == LittleEndian(t) / 0x100;
      LittleEndianInjective(s[1..], t[1..]);
      assert s == [s[0]] + s[1..] && t == [t[0]] + t[1..];
    }
  }

  /** Inputs that differ only inside a window of at most four bytes have different checksums. */
  lemma WindowIsDetected(before: seq<Byte>, x: seq<Byte>, y: seq<Byte>, after: seq<Byte>, previous: Word)
    requires |x| == |y| <= 4 && x != y
    ensures Crc(before + x + after, previous) != Crc(before + y + after, previous)
  {
    var c := Complement(previous);
    FeedOfWord(c, before);
    var d := Feed(c, before);
    FeedOfWord(d, x);
    FeedOfWord(d, y);
    FeedConcat(c, before, x);
    FeedConcat(c, before, y);
    FeedConcat(c, before + x, after);
    FeedConcat(c, before + y, after);
    if Feed(d, x) == Feed(d, y) {
      FourBytesAreInjective(d, x, y);
    }
    if Feed(Feed(d, x), after) == Feed(Feed(d, y), after) {
      RegisterStepIsInjective(Feed(d, x), Feed(d, y), after);
    }
  }

  /** Up to four bytes fed to one register value can be told apart. */
  lemma FourBytesAreInjective(c: Word, x: seq<Byte>, y: seq<Byte>)
    requires |x| == |y| <= 4 && Feed(c, x) == Feed(c, y)
    ensures x == y
  {
    var m, l := LittleEndian(x), LittleEndian(y);
    LittleEndianBound(x);
    LittleEndianBound(y);
    ShlMonotone(8 * |x|, 32);
    ShlValues(1);
    FeedDifference(c, x, y);
    XorSelf(Feed(c, x));
    XorWords(m, l);
    if Xor(m, l) != 0 {
      ShiftsNeverVanish(Xor(m, l), 8 * |x|);
    }
    XorIsZero(m, l);
    LittleEndianInjective(x, y);
  }

  lemma {:induction false} ShlMonotone(m: nat, n: nat)
    requires m <= n
    ensures Shl(1, m) <= Shl(1, n)
    decreases n
  {
    if m < n {
      ShlMonotone(m, n - 1);
      assert Shl(1, n) == 2 * Shl(1, n - 1);
    }
  }

  lemma ShiftKeepsParity(c: nat)
    ensures Parity(Shift(c)) == Parity(c)
  {
    hide Xor, Parity;
    PolynomialIsOdd();
    ParityStep(c);
    ParityStep(c / 2);
    ParityOfXor(c / 2, CRC32C_POLYNOMIAL);
  }

  lemma {:induction false} ParityOfShl(a: nat, n: nat)
    ensures Parity(Shl(a, n)) == Parity(a)
  {
    if n > 0 {
      ParityOfShl(a, n - 1);
      ParityStep(Shl(a, n - 1));
      ParityStep(Shl(a, n));
    }
  }

  lemma ParityOfHexDigit(high: nat, low: nat)
    requires low < 0x10
    ensures Parity(0x10 * high + low) == if Parity(high) == Parity(low) then 0 else 1
  {
    ShlNibble(high);
    ShlNibble(1);
    XorDisjoint(high, low, 4);
    ParityOfXor(Shl(high, 4), low);
    ParityOfShl(high, 4);
  }

  lemma ShlNibble(a: nat)
    ensures Shl(a, 4) == 0x10 * a
  {
    ShlValues(a);
    assert Shl(a, 4) == 2 * Shl(a, 3) && Shl(a, 3) == 2 * Shl(a, 2) && Shl(a, 2) == 2 * Shl(a, 1);
  }

  lemma PolynomialIsOdd()
    ensures Parity(CRC32C_POLYNOMIAL) == 1
  {
    ParityOfHexDigit(0x0, 0x8);
    ParityOfHexDigit(0x8, 0x2);
    ParityOfHexDigit(0x82, 0xF);
    ParityOfHexDigit(0x82F, 0x6);
    ParityOfHexDigit(0x82F6, 0x3);
    ParityOfHexDigit(0x82F63, 0xB);
    ParityOfHexDigit(0x82F63B, 0x7);
    ParityOfHexDigit(0x82F63B7, 0x8);
    assert Parity(0x2) == Parity(0x8) == 1 && Parity(0xF) == Parity(0x6) == Parity(0x3) == 0;
    assert Parity(0xB) == Parity(0x7) == 1;
  }

  lemma {:induction false} ShiftsKeepParity(c: nat, n: nat)
    ensures Parity(Shifts(c, n)) == Parity(c)
    decreases n
  {
    if n > 0 {
      ShiftKeepsParity(c);
      ShiftsKeepParity(Shift(c), n - 1);
    }
  }

  /** Every error that changes an odd number of bits changes the checksum. */
  lemma OddErrorsAreDetected(s: seq<Byte>, t: seq<Byte>, previous: Word)
    requires |s| == |t| && Parity(Xor(LittleEndian(s), LittleEndian(t))) == 1
    ensures Crc(s, previous) != Crc(t, previous)
  {
    ShiftsKeepParity(Xor(LittleEndian(s), LittleEndian(t)), 8 * |s|);
    CrcsDiffer(s, t, previous);
  }
}
