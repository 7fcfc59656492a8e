/**
 String literals as section 7 of RFC 8259 spells them, byte by byte, and what `parse_string` of fern/cJSON.c reads.
 Nothing here is taken from the parser: letters, digits and their meanings are written out.
 */
module JsonStringGrammar {
  import opened Bits
  import opened JsonStrings
  import opened Options
  import opened UnicodeEscapes

  // ----- Hexadecimal digits -----

  /** The bytes of `0123456789ABCDEF`. */
  const UPPER_DIGITS: seq<Byte> := [
    0x30, 0x31, 0x32, 0x33, 0x34, 0x35, 0x36, 0x37, 0x38, 0x39, 0x41, 0x42, 0x43, 0x44, 0x45, 0x46]

  /** The bytes of `0123456789abcdef`. */
  const LOWER_DIGITS: seq<Byte> := [
    0x30, 0x31, 0x32, 0x33, 0x34, 0x35, 0x36, 0x37, 0x38, 0x39, 0x61, 0x62, 0x63, 0x64, 0x65, 0x66]

  /** A digit below sixteen, in either case. */
  datatype HexDigit = HexDigit(value: nat, upper: bool) {
    predicate Valid() {
      value < 16
    }

    function Spelled(): Byte
      requires Valid()
    {
      if upper then UPPER_DIGITS[value] else LOWER_DIGITS[value]
    }
  }

  /** Four digits. */
  datatype Quad = Quad(a: HexDigit, b: HexDigit, c: HexDigit, d: HexDigit) {
    predicate Valid() {
      a.Valid() && b.Valid() && c.Valid() && d.Valid()
    }

    function Spelled(): seq<Byte>
      requires Valid()
    {
      [a.Spelled(), b.Spelled(), c.Spelled(), d.Spelled()]
    }

    function Value(): nat {
      0x1000 * a.value + 0x100 * b.value + 0x10 * c.value + d.value
    }
  }

  lemma DigitIsRead(x: HexDigit)
    requires x.Valid()
    ensures IsHexDigit(x.Spelled()) && HexDigitValue(x.Spelled()) == x.value
    ensures x.Spelled() != 0x22 && x.Spelled() != 0x5C
  {}

  /** There are no other digits. */
  lemma OnlyDigits(b: Byte)
    ensures IsHexDigit(b) <==> b in UPPER_DIGITS || b in LOWER_DIGITS
  {
    if 0x30 <= b <= 0x39 {
      assert UPPER_DIGITS[b - 0x30] == b;
    } else if 0x41 <= b <= 0x46 {
      assert UPPER_DIGITS[b - 0x41 + 10] == b;
    } else if 0x61 <= b <= 0x66 {
      assert LOWER_DIGITS[b - 0x61 + 10] == b;
    }
  }

  /** Whatever the case of its letters, a group of four digits has its value. */
  lemma QuadIsRead(q: Quad)
    requires q.Valid()
    ensures Hex4(q.Spelled()) == q.Value()
    ensures forall i :: 0 <= i < 4 ==> q.Spelled()[i] != 0x22 && q.Spelled()[i] != 0x5C
  {
    DigitIsRead(q.a);
    DigitIsRead(q.b);
    DigitIsRead(q.c);
    DigitIsRead(q.d);
    var s := q.Spelled();
    hide HexDigitValue, IsHexDigit;
    assert AllHexDigits(s);
    assert s[..3][..2] == s[..2] && s[..2][..1] == s[..1] && s[..1][..0] == [];
    assert HexValue(s) == 0x10 * HexValue(s[..3]) + q.d.value;
    assert HexValue(s[..3]) == 0x10 * HexValue(s[..2]) + q.c.value;
    assert HexValue(s[..2]) == 0x10 * HexValue(s[..1]) + q.b.value;
    assert HexValue(s[..1]) == 0x10 * HexValue([]) + q.a.value;
  }

  // ----- Units -----

  /** A byte that stands for itself, one of the eight two-character escapes, or the escape of a character in one group
      of digits or in a surrogate pair, with the UTF-8 form of the character. */
  datatype Unit =
    | Plain(byte: Byte)
    | Short(letter: Byte, byte: Byte)
    | Basic(quad: Quad, utf8: seq<Byte>)
    | Pair(high: Quad, low: Quad, utf8: seq<Byte>)

  /** `"`, `\`, `/`, and backspace, form feed, line feed, carriage return and tab for b, f, n, r and t. */
  predicate IsShort(letter: Byte, byte: Byte) {
    || (letter == 0x22 && byte == 0x22) || (letter == 0x5C && byte == 0x5C) || (letter == 0x2F && byte == 0x2F)
    || (letter == 0x62 && byte == 0x08) || (letter == 0x66 && byte == 0x0C) || (letter == 0x6E && byte == 0x0A)
    || (letter == 0x72 && byte == 0x0D) || (letter == 0x74 && byte == 0x09)
  }

  /** `utf8` is the form of a character, by the grammar and the decoding rule of RFC 3629. */
  predicate IsCharacter(utf8: seq<Byte>, codepoint: nat) {
    IsUtf8Character(utf8) && DecodeUtf8(utf8) == codepoint
  }

  predicate ValidUnit(u: Unit) {
    match u
    case Plain(b) => b != 0x22 && b != 0x5C && b != 0
    case Short(letter, b) => IsShort(letter, b)
    case Basic(q, utf8) =>
      q.Valid() && (q.Value() < 0xD800 || q.Value() > 0xDFFF) && IsCharacter(utf8, q.Value())
    case Pair(high, low, utf8) =>
      && high.Valid() && 0xD800 <= high.Value() <= 0xDBFF && low.Valid() && 0xDC00 <= low.Value() <= 0xDFFF
      && IsCharacter(utf8, 0x1_0000 + 0x400 * (high.Value() - 0xD800) + (low.Value() - 0xDC00))
  }

  function UnitText(u: Unit): (s: seq<Byte>)
    requires ValidUnit(u)
    ensures 1 <= |s|
  {
    match u
    case Plain(b) => [b]
    case Short(letter, _) => [0x5C, letter]
    case Basic(q, _) => [0x5C, 0x75] + q.Spelled()
    case Pair(high, low, _) => [0x5C, 0x75] + high.Spelled() + ([0x5C, 0x75] + low.Spelled())
  }

  function UnitBytes(u: Unit): seq<Byte> {
    match u
    case Plain(b) => [b]
    case Short(_, b) => [b]
    case Basic(_, utf8) => utf8
    case Pair(_, _, utf8) => utf8
  }

  predicate ValidUnits(units: seq<Unit>) {
    forall i :: 0 <= i < |units| ==> ValidUnit(units[i])
  }

  function UnitsText(units: seq<Unit>): seq<Byte>
    requires ValidUnits(units)
  {
    if units == [] then [] else UnitText(units[0]) + UnitsText(units[1..])
  }

  function UnitsBytes(units: seq<Unit>): seq<Byte> {
    if units == [] then [] else UnitBytes(units[0]) + UnitsBytes(units[1..])
  }

  function StringText(units: seq<Unit>): seq<Byte>
    requires ValidUnits(units)
  {
    [0x22] + (UnitsText(units) + [0x22])
  }

  // ----- Every unit is read -----

  /** Both passes step over `s` at `p`, and the second one writes `bytes`. */
  predicate StepsOver(content: seq<Byte>, p: nat, end: nat, s: seq<Byte>, bytes: seq<Byte>)
    requires p + |s| <= end < |content|
  {
    && ClosingQuote(content, p) == ClosingQuote(content, p + |s|)
    && Unescape(content, p, end) == Unescape(content, p + |s|, end).After(bytes)
  }

  lemma PlainIsRead(content: seq<Byte>, p: nat, end: nat, b: Byte)
    requires p + 1 <= end < |content| && content[p] == b && b != 0x22 && b != 0x5C
    ensures StepsOver(content, p, end, [b], [b])
  {}

  lemma ShortIsRead(content: seq<Byte>, p: nat, end: nat, letter: Byte, b: Byte)
    requires p + 2 <= end < |content| && content[p] == 0x5C && content[p + 1] == letter && IsShort(letter, b)
    ensures StepsOver(content, p, end, [0x5C, letter], [b])
  {
    assert SimpleEscape(letter) == Some(b);
  }

  lemma {:induction false} PlainBytesPass(content: seq<Byte>, p: nat, q: nat)
    requires p <= q <= |content|
    requires forall i :: p <= i < q ==> content[i] != 0x22 && content[i] != 0x5C
    ensures ClosingQuote(content, p) == ClosingQuote(content, q)
    decreases q - p
  {
    if p < q {
      PlainBytesPass(content, p + 1, q);
    }
  }

  /** The first pass over one `\u` group, and its digits for the second. */
  lemma QuadStands(content: seq<Byte>, p: nat, q: Quad)
    requires q.Valid() && StandsAt(content, p, [0x5C, 0x75] + q.Spelled())
    ensures p + 6 <= |content| && content[p] == 0x5C && content[p + 1] == 0x75
    ensures Hex4(content[p + 2..p + 6]) == q.Value()
    ensures ClosingQuote(content, p) == ClosingQuote(content, p + 6)
  {
    QuadIsRead(q);
    StandsSplit(content, p, [0x5C, 0x75], q.Spelled());
    StandsIndex(content, p, [0x5C, 0x75], 0);
    StandsIndex(content, p, [0x5C, 0x75], 1);
    forall i | 0 <= i < 4
      ensures content[p + 2 + i] == q.Spelled()[i]
    {
      StandsIndex(content, p + 2, q.Spelled(), i);
    }
    PlainBytesPass(content, p + 2, p + 6);
  }

  lemma BasicIsRead(content: seq<Byte>, p: nat, end: nat, q: Quad, utf8: seq<Byte>)
    requires ValidUnit(Basic(q, utf8)) && p + 6 <= end < |content|
    requires StandsAt(content, p, [0x5C, 0x75] + q.Spelled())
    ensures StepsOver(content, p, end, [0x5C, 0x75] + q.Spelled(), utf8)
  {
    hide Hex4, Utf8, IsUtf8Character, DecodeUtf8, ClosingQuote, StandsAt;
    QuadStands(content, p, q);
    assert DecodeEscape(content, p, end) == Decoded(q.Value(), 6);
    Utf8IsTheEncoding(q.Value(), utf8);
  }

  lemma PairIsRead(content: seq<Byte>, p: nat, end: nat, high: Quad, low: Quad, utf8: seq<Byte>)
    requires ValidUnit(Pair(high, low, utf8)) && p + 12 <= end < |content|
    requires StandsAt(content, p, UnitText(Pair(high, low, utf8)))
    ensures StepsOver(content, p, end, UnitText(Pair(high, low, utf8)), utf8)
  {
    hide Hex4, Utf8, IsUtf8Character, DecodeUtf8, ClosingQuote, StandsAt;
    StandsSplit(content, p, [0x5C, 0x75] + high.Spelled(), [0x5C, 0x75] + low.Spelled());
    QuadStands(content, p, high);
    QuadStands(content, p + 6, low);
    var codepoint := 0x1_0000 + 0x400 * (high.Value() - 0xD800) + (low.Value() - 0xDC00);
    assert DecodeEscape(content, p, end) == Decoded(codepoint, 12);
    Utf8IsTheEncoding(codepoint, utf8);
  }

  lemma UnitIsRead(content: seq<Byte>, p: nat, end: nat, u: Unit)
    requires ValidUnit(u) && StandsAt(content, p, UnitText(u)) && p + |UnitText(u)| <= end < |content|
    ensures StepsOver(content, p, end, UnitText(u), UnitBytes(u))
  {
    hide StepsOver, StandsAt, Unescape, ClosingQuote;
    StandsIndex(content, p, UnitText(u), 0);
    match u
    case Plain(b) => PlainIsRead(content, p, end, b);
    case Short(letter, b) =>
      StandsIndex(content, p, UnitText(u), 1);
      ShortIsRead(content, p, end, letter, b);
    case Basic(q, utf8) => BasicIsRead(content, p, end, q, utf8);
    case Pair(high, low, utf8) => PairIsRead(content, p, end, high, low, utf8);
  }

  // ----- Every literal is read -----

  lemma LastByteStands(content: seq<Byte>, p: nat, b: Byte)
    requires StandsAt(content, p, [b])
    ensures p < |content| && content[p] == b
  {
    StandsIndex(content, p, [b], 0);
  }

  lemma {:induction false} UnitsAreRead(content: seq<Byte>, p: nat, units: seq<Unit>)
    requires ValidUnits(units) && StandsAt(content, p, UnitsText(units) + [0x22])
    ensures var end := p + |UnitsText(units)|;
            end < |content| && ClosingQuote(content, p) == Some(end)
            && Unescape(content, p, end) == Unescaped(UnitsBytes(units), end, true)
    decreases |units|
  {
    hide StandsAt, UnitText, UnitBytes, ValidUnit;
    var end := p + |UnitsText(units)|;
    StandsSplit(content, p, UnitsText(units), [0x22]);
    LastByteStands(content, end, 0x22);
    if units != [] {
      var head, rest := UnitText(units[0]), UnitsText(units[1..]);
      assert UnitsText(units) + [0x22] == head + (rest + [0x22]);
      StandsSplit(content, p, head, rest + [0x22]);
      UnitsAreRead(content, p + |head|, units[1..]);
      hide Unescape, ClosingQuote;
      UnitIsRead(content, p, end, units[0]);
    }
  }

  /** Every string literal of RFC 8259 is read as the C string of its characters, up to its closing quote. */
  lemma StringIsRead(content: seq<Byte>, offset: nat, units: seq<Unit>)
    requires ValidUnits(units) && StandsAt(content, offset, StringText(units))
    ensures offset < |content|
    ensures ParseStringAt(content, offset) == Parsed(CString(UnitsBytes(units)), offset + |StringText(units)|)
  {
    hide ClosingQuote, Unescape, UnitsText, UnitsBytes, StandsAt, CString;
    StandsSplit(content, offset, [0x22], UnitsText(units) + [0x22]);
    LastByteStands(content, offset, 0x22);
    UnitsAreRead(content, offset + 1, units);
  }

  lemma OneUnit(u: Unit)
    requires ValidUnit(u)
    ensures ValidUnits([u]) && UnitsText([u]) == UnitText(u) && UnitsBytes([u]) == UnitBytes(u)
  {
    hide UnitText, UnitBytes, ValidUnit;
    assert [u][1..] == [];
    assert UnitsText([u]) == UnitText(u) + [] && UnitsBytes([u]) == UnitBytes(u) + [];
  }

  lemma CharacterHasNoNul(utf8: seq<Byte>, codepoint: nat)
    requires IsCharacter(utf8, codepoint) && codepoint > 0
    ensures 0 !in utf8
  {}

  /** In particular, a character that is escaped is read as its UTF-8 form, whichever the case of the digits. */
  lemma EscapedCharacterIsRead(content: seq<Byte>, offset: nat, q: Quad, utf8: seq<Byte>)
    requires ValidUnit(Basic(q, utf8)) && q.Value() > 0
    requires StandsAt(content, offset, [0x22, 0x5C, 0x75] + q.Spelled() + [0x22])
    ensures offset < |content| && ParseStringAt(content, offset) == Parsed(utf8, offset + 8)
  {
    OneUnit(Basic(q, utf8));
    CharacterHasNoNul(utf8, q.Value());
    hide IsUtf8Character, DecodeUtf8, UnitsText, UnitsBytes, StandsAt, UPPER_DIGITS, LOWER_DIGITS;
    assert StringText([Basic(q, utf8)]) == [0x22, 0x5C, 0x75] + q.Spelled() + [0x22];
    StringIsRead(content, offset, [Basic(q, utf8)]);
  }

  /** A backslash before anything but the eight letters and `u` is an error at the backslash, whatever came before. */
  lemma {:induction false} OtherEscapeIsRejected(content: seq<Byte>, p: nat, end: nat, units: seq<Unit>)
    requires ValidUnits(units) && StandsAt(content, p, UnitsText(units))
            && p + |UnitsText(units)| + 2 <= end < |content|
    requires var q := p + |UnitsText(units)|;
             content[q] == 0x5C && content[q + 1] !in [0x22, 0x5C, 0x2F, 0x62, 0x66, 0x6E, 0x72, 0x74, 0x75]
    ensures var u := Unescape(content, p, end);
            !u.ok && u.stop == p + |UnitsText(units)| && u.bytes == UnitsBytes(units)
    decreases |units|
  {
    hide StandsAt, UnitText, UnitBytes, ValidUnit;
    if units == [] {
      assert SimpleEscape(content[p + 1]) == None;
    } else {
      StandsSplit(content, p, UnitText(units[0]), UnitsText(units[1..]));
      OtherEscapeIsRejected(content, p + |UnitText(units[0])|, end, units[1..]);
      hide Unescape, IsShort;
      UnitIsRead(content, p, end, units[0]);
    }
  }

  /** So is a character beyond the first plane, as a surrogate pair. */
  lemma EscapedPairIsRead(content: seq<Byte>, offset: nat, high: Quad, low: Quad, utf8: seq<Byte>)
    requires ValidUnit(Pair(high, low, utf8))
    requires StandsAt(content, offset, [0x22] + ([0x5C, 0x75] + high.Spelled() + ([0x5C,
            0x75] + low.Spelled())) + [0x22])
    ensures offset < |content| && ParseStringAt(content, offset) == Parsed(utf8, offset + 14)
  {
    var u := Pair(high, low, utf8);
    OneUnit(u);
    CharacterHasNoNul(utf8, 0x1_0000 + 0x400 * (high.Value() - 0xD800) + (low.Value() - 0xDC00));
    hide IsUtf8Character, DecodeUtf8, UnitsText, UnitsBytes, StandsAt, UPPER_DIGITS, LOWER_DIGITS;
    assert StringText([u]) == [0x22] + UnitText(u) + [0x22];
    StringIsRead(content, offset, [u]);
  }

  // ----- Printed literals -----

  /** How the printer spells a byte: the two-character escape if there is one (but for `/`), four lower-case digits
      for other control characters, and the byte itself otherwise. */
  function SpellByte(b: Byte): (u: Unit)
    requires b != 0
    ensures ValidUnit(u) && UnitBytes(u) == [b]
  {
    if b == 0x22 then Short(0x22, b)
    else if b == 0x5C then Short(0x5C, b)
    else if b == 0x08 then Short(0x62, b)
    else if b == 0x0C then Short(0x66, b)
    else if b == 0x0A then Short(0x6E, b)
    else if b == 0x0D then Short(0x72, b)
    else if b == 0x09 then Short(0x74, b)
    else if b < 0x20 then
      Basic(Quad(HexDigit(0, false), HexDigit(0, false), HexDigit(b / 16, false), HexDigit(b % 16, false)), [b])
    else Plain(b)
  }

  function SpellBytes(s: seq<Byte>): (units: seq<Unit>)
    requires 0 !in s
    ensures ValidUnits(units)
  {
    if s == [] then [] else [SpellByte(s[0])] + SpellBytes(s[1..])
  }

  lemma LowerDigit(v: nat)
    requires v < 16
    ensures LowerHexDigit(v) == HexDigit(v, false).Spelled()
  {}

  lemma LowerZero()
    ensures HexDigit(0, false).Spelled() == 0x30
  {}

  lemma ByteIsSpelled(b: Byte)
    requires b != 0
    ensures EscapeByte(b) == UnitText(SpellByte(b))
  {
    hide LowerHexDigit, LOWER_DIGITS, UPPER_DIGITS, ValidUnit;
    if b < 0x20 {
      LowerZero();
      LowerDigit(b / 16);
      LowerDigit(b % 16);
    }
  }

  lemma {:induction false} BytesAreSpelled(s: seq<Byte>)
    requires 0 !in s
    ensures EscapeBytes(s) == UnitsText(SpellBytes(s)) && UnitsBytes(SpellBytes(s)) == s
  {
    hide EscapeByte, SpellByte, UnitText, UnitBytes, ValidUnit;
    if s != [] {
      ByteIsSpelled(s[0]);
      BytesAreSpelled(s[1..]);
      assert SpellBytes(s)[1..] == SpellBytes(s[1..]);
    }
  }

  /** The printed form of a C string is a literal of the grammar for exactly its bytes. */
  lemma LiteralIsSpelled(s: seq<Byte>)
    requires 0 !in s
    ensures Literal(s) == StringText(SpellBytes(s)) && UnitsBytes(SpellBytes(s)) == s
  {
    BytesAreSpelled(s);
    hide EscapeBytes, UnitsText, SpellBytes;
  }

  /** The printed form of every NUL-free string is read back, and reading ends exactly after it. */
  lemma LiteralParses(content: seq<Byte>, offset: nat, s: seq<Byte>)
    requires 0 !in s && StandsAt(content, offset, Literal(s))
    ensures offset < |content| && ParseStringAt(content, offset) == Parsed(s, offset + |Literal(s)|)
  {
    LiteralIsSpelled(s);
    StringIsRead(content, offset, SpellBytes(s));
  }
}
