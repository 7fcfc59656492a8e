/** Unsigned machine words as natural numbers: exclusive or, powers of two and parity. */
module Bits {
  type Byte = b: nat | b < 0x100
  type Word = w: nat | w < 0x1_0000_0000

  const WORD_MAX: Word := 0xFFFF_FFFF

  /** The C operator `<<` on an unbounded word. */
  function Shl(a: nat, n: nat): nat
    decreases n, a
  {
    if n == 0 then a else 2 * Shl(a, n - 1)
  }

  lemma ShlValues(a: nat)
    ensures Shl(a, 1) == 2 * a
    ensures Shl(a, 8) == 0x100 * a
    ensures Shl(a, 16) == 0x1_0000 * a
    ensures Shl(a, 24) == 0x100_0000 * a
    ensures Shl(a, 32) == 0x1_0000_0000 * a
  {
    ShlByte(a, 0);
    ShlByte(a, 8);
    ShlByte(a, 16);
    ShlByte(a, 24);
  }

  lemma ShlByte(a: nat, n: nat)
    ensures Shl(a, n + 8) == 0x100 * Shl(a, n)
  {
    assert Shl(a, n + 8) == 2 * Shl(a, n + 7);
    assert Shl(a, n + 7) == 2 * Shl(a, n + 6);
    assert Shl(a, n + 6) == 2 * Shl(a, n + 5);
    assert Shl(a, n + 5) == 2 * Shl(a, n + 4);
    assert Shl(a, n + 4) == 2 * Shl(a, n + 3);
    assert Shl(a, n + 3) == 2 * Shl(a, n + 2);
    assert Shl(a, n + 2) == 2 * Shl(a, n + 1);
    assert Shl(a, n + 1) == 2 * Shl(a, n);
  }

  /** The C operator `^`, digit by binary digit. */
  function Xor(a: nat, b: nat): nat
    decreases a + b
  {
    if a == 0 && b == 0 then 0 else (if a % 2 == b % 2 then 0 else 1) + 2 * Xor(a / 2, b / 2)
  }

  lemma JoinDigit(d: nat, x: nat)
    requires d < 2
    ensures (d + 2 * x) % 2 == d && (d + 2 * x) / 2 == x
  {}

  lemma XorDigit(a: nat, b: nat)
    ensures Xor(a, b) % 2 == if a % 2 == b % 2 then 0 else 1
    ensures Xor(a, b) / 2 == Xor(a / 2, b / 2)
  {
    JoinDigit(if a % 2 == b % 2 then 0 else 1, Xor(a / 2, b / 2));
  }

  lemma {:induction false} XorCommutes(a: nat, b: nat)
    ensures Xor(a, b) == Xor(b, a)
    decreases a + b
  {
    if a + b > 0 {
      XorCommutes(a / 2, b / 2);
    }
  }

  lemma {:induction false} XorZero(a: nat)
    ensures Xor(a, 0) == a && Xor(0, a) == a
  {
    if a > 0 {
      XorZero(a / 2);
    }
  }

  lemma {:induction false} XorSelf(a: nat)
    ensures Xor(a, a) == 0
  {
    if a > 0 {
      XorSelf(a / 2);
    }
  }

  lemma {:induction false} XorAssociates(a: nat, b: nat, c: nat)
    ensures Xor(Xor(a, b), c) == Xor(a, Xor(b, c))
    decreases a + b + c
  {
    if a + b + c > 0 {
      var ab, bc := Xor(a, b), Xor(b, c);
      XorDigit(a, b);
      XorDigit(b, c);
      XorDigit(ab, c);
      XorDigit(a, bc);
      XorAssociates(a / 2, b / 2, c / 2);
    }
  }

  /** Exchanges the two middle operands of a four-way exclusive or. */
  lemma XorExchange(a: nat, b: nat, c: nat, d: nat)
    ensures Xor(Xor(a, b), Xor(c, d)) == Xor(Xor(a, c), Xor(b, d))
  {
    XorAssociates(a, b, Xor(c, d));
    XorAssociates(b, c, d);
    XorCommutes(b, c);
    XorAssociates(c, b, d);
    XorAssociates(a, c, Xor(b, d));
  }

  lemma XorCancels(a: nat, b: nat)
    ensures Xor(a, Xor(a, b)) == b
    ensures Xor(Xor(b, a), a) == b
  {
    XorAssociates(a, a, b);
    XorAssociates(b, a, a);
    XorSelf(a);
    XorZero(b);
  }

  lemma XorIsZero(a: nat, b: nat)
    ensures Xor(a, b) == 0 <==> a == b
  {
    XorSelf(a);
    XorCancels(a, b);
    XorZero(a);
  }

  lemma {:induction false} XorBound(a: nat, b: nat, n: nat)
    requires a < Shl(1, n) && b < Shl(1, n)
    ensures Xor(a, b) < Shl(1, n)
  {
    if n > 0 {
      XorDigit(a, b);
      XorBound(a / 2, b / 2, n - 1);
    }
  }

  lemma XorBytes(a: Byte, b: Byte)
    ensures Xor(a, b) < 0x100
  {
    ShlValues(1);
    XorBound(a, b, 8);
  }

  lemma XorWords(a: Word, b: Word)
    ensures Xor(a, b) < 0x1_0000_0000
  {
    ShlValues(1);
    XorBound(a, b, 32);
  }

  /** Operands without a common binary digit add. */
  lemma {:induction false} XorDisjoint(a: nat, b: nat, n: nat)
    requires b < Shl(1, n)
    ensures Xor(Shl(a, n), b) == Shl(a, n) + b
  {
    if n == 0 {
      XorZero(a);
    } else {
      XorDigit(Shl(a, n), b);
      XorDisjoint(a, b / 2, n - 1);
    }
  }

  lemma XorDoubles(g: nat, h: nat)
    ensures Xor(2 * g, 2 * h) == 2 * Xor(g, h)
  {
    XorDigit(2 * g, 2 * h);
  }

  lemma {:induction false} XorScales(a: nat, b: nat, n: nat)
    ensures Xor(Shl(a, n), Shl(b, n)) == Shl(Xor(a, b), n)
  {
    if n > 0 {
      var g, h := Shl(a, n - 1), Shl(b, n - 1);
      XorScales(a, b, n - 1);
      XorDoubles(g, h);
    }
  }

  /** The C operator `~` on a 32-bit word. */
  function Complement(w: Word): Word {
    WORD_MAX - w
  }

  /** The number of one digits, modulo two. */
  function Parity(a: nat): nat {
    if a == 0 then 0 else if a % 2 == Parity(a / 2) then 0 else 1
  }

  lemma ParityStep(a: nat)
    ensures Parity(a) < 2
    ensures Parity(a) == if a % 2 == Parity(a / 2) then 0 else 1
  {}

  lemma {:induction false} ParityOfXor(a: nat, b: nat)
    ensures Parity(Xor(a, b)) == if Parity(a) == Parity(b) then 0 else 1
    decreases a + b
  {
    if a + b > 0 {
      XorDigit(a, b);
      ParityOfXor(a / 2, b / 2);
    }
  }
}
