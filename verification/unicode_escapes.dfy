/**
 The `\u` escapes of fern/cJSON.c: four hexadecimal digits, surrogate pairs (section 7 of RFC 8259),
 and the UTF-8 form of a code point (section 3 of RFC 3629).
 */
module UnicodeEscapes {
  import opened Bits

  const BACKSLASH: Byte := 0x5C
  const LOWER_U: Byte := 0x75

  // ----- Four hexadecimal digits -----

  predicate IsHexDigit(b: Byte) {
    0x30 <= b <= 0x39 || 0x41 <= b <= 0x46 || 0x61 <= b <= 0x66
  }

  function HexDigitValue(b: Byte): (v: nat)
    requires IsHexDigit(b)
    ensures v < 0x10
  {
    if b <= 0x39 then b - 0x30 else if b <= 0x46 then b - 0x41 + 10 else b - 0x61 + 10
  }

  predicate AllHexDigits(s: seq<Byte>) {
    forall i :: 0 <= i < |s| ==> IsHexDigit(s[i])
  }

  /** Base sixteen, most significant digit first. */
  function HexValue(s: seq<Byte>): nat
    requires AllHexDigits(s)
  {
    if s == [] then 0 else 0x10 * HexValue(s[..|s| - 1]) + HexDigitValue(s[|s| - 1])
  }

  /** A malformed group of four reads as zero. */
  function Hex4(s: seq<Byte>): nat {
    if AllHexDigits(s) then HexValue(s) else 0
  }

  lemma {:induction false} HexValueBound(s: seq<Byte>)
    requires AllHexDigits(s)
    ensures HexValue(s) < Shl(1, 4 * |s|)
  {
    if s != [] {
      var n := 4 * |s|;
      HexValueBound(s[..|s| - 1]);
      assert Shl(1, n) == 2 * Shl(1, n - 1) && Shl(1, n - 1) == 2 * Shl(1, n - 2);
      assert Shl(1, n - 2) == 2 * Shl(1, n - 3) && Shl(1, n - 3) == 2 * Shl(1, n - 4);
    }
  }

  lemma Hex4Bound(s: seq<Byte>)
    requires |s| == 4
    ensures Hex4(s) < 0x1_0000
  {
    ShlValues(1);
    if AllHexDigits(s) {
      HexValueBound(s);
    }
  }

  /** `parse_hex4`. */
  method ParseHex4(input: seq<Byte>, p: nat) returns (h: nat)
    requires p + 4 <= |input|
    ensures h == Hex4(input[p..p + 4])
  {
    h := 0;
    ghost var s := input[p..p + 4];
    for i := 0 to 4
      invariant AllHexDigits(s[..i])
      invariant h == if i < 4 then 0x10 * HexValue(s[..i]) else HexValue(s[..i])
    {
      var b := input[p + i];
      assert b == s[i];
      if !IsHexDigit(b) {
        return 0;
      }
      assert s[..i + 1][..i] == s[..i];
      h := h + HexDigitValue(b);
      if i < 3 {
        h := h * 0x10;
      }
    }
    assert s[..4] == s;
  }

  // ----- One escape, or a surrogate pair -----

  /** What stands at a `\u`: a code point and the number of input bytes it takes, or nothing usable. */
  datatype Escape = Bad | Decoded(codepoint: nat, length: nat)

  predicate IsHighSurrogate(u: nat) {
    0xD800 <= u <= 0xDBFF
  }

  predicate IsLowSurrogate(u: nat) {
    0xDC00 <= u <= 0xDFFF
  }

  /** Section 3.9 of the Unicode standard, as RFC 8259 uses it: the code point of a surrogate pair. */
  function PairCodepoint(high: nat, low: nat): nat
    requires IsHighSurrogate(high) && IsLowSurrogate(low)
  {
    0x1_0000 + 0x400 * (high - 0xD800) + (low - 0xDC00)
  }

  function DecodeEscape(input: seq<Byte>, p: nat, end: nat): Escape
    requires p <= end <= |input|
  {
    if end - p < 6 then Bad
    else
      var first := Hex4(input[p + 2..p + 6]);
      if IsLowSurrogate(first) then Bad
      else if !IsHighSurrogate(first) then Decoded(first, 6)
      else if end - (p + 6) < 6 || input[p + 6] != BACKSLASH || input[p + 7] != LOWER_U then Bad
      else
        var second := Hex4(input[p + 8..p + 12]);
        if IsLowSurrogate(second) then Decoded(PairCodepoint(first, second), 12) else Bad
  }

  /** A Unicode scalar value: a code point that is not a surrogate. */
  predicate IsScalar(codepoint: nat) {
    codepoint <= 0x10_FFFF && !IsHighSurrogate(codepoint) && !IsLowSurrogate(codepoint)
  }

  /** What is decoded is a scalar value, and only a surrogate pair takes twelve bytes. */
  lemma DecodedIsScalar(input: seq<Byte>, p: nat, end: nat)
    requires p <= end <= |input| && DecodeEscape(input, p, end).Decoded?
    ensures var e := DecodeEscape(input, p, end);
            IsScalar(e.codepoint) && p + e.length <= end && e.length == if e.codepoint < 0x1_0000 then 6 else 12
  {
    Hex4Bound(input[p + 2..p + 6]);
  }

  // ----- UTF-8 -----

  function Continuation(codepoint: nat): Byte {
    0x80 + codepoint % 0x40
  }

  /** The shortest form, section 3 of RFC 3629. */
  function Utf8(codepoint: nat): (s: seq<Byte>)
    requires codepoint <= 0x10_FFFF
    ensures 1 <= |s| <= 4
  {
    if codepoint < 0x80 then [codepoint]
    else if codepoint < 0x800 then [0xC0 + codepoint / 0x40, Continuation(codepoint)]
    else if codepoint < 0x1_0000 then
      [0xE0 + codepoint / 0x1000, Continuation(codepoint / 0x40), Continuation(codepoint)]
    else
      [0xF0 + codepoint / 0x4_0000, Continuation(codepoint / 0x1000), Continuation(codepoint / 0x40),
       Continuation(codepoint)]
  }

  predicate IsTail(b: Byte) {
    0x80 <= b <= 0xBF
  }

  /** The grammar of section 4 of RFC 3629, which leaves out overlong forms and surrogates. */
  predicate IsUtf8Character(s: seq<Byte>) {
    || (|s| == 1 && s[0] <= 0x7F)
    || (|s| == 2 && 0xC2 <= s[0] <= 0xDF && IsTail(s[1]))
    || (|s| == 3 && IsTail(s[2])
        && (|| (s[0] == 0xE0 && 0xA0 <= s[1] <= 0xBF)
            || (0xE1 <= s[0] <= 0xEC && IsTail(s[1]))
            || (s[0] == 0xED && 0x80 <= s[1] <= 0x9F)
            || (0xEE <= s[0] <= 0xEF && IsTail(s[1]))))
    || (|s| == 4 && IsTail(s[2]) && IsTail(s[3])
        && (|| (s[0] == 0xF0 && 0x90 <= s[1] <= 0xBF)
            || (0xF1 <= s[0] <= 0xF3 && IsTail(s[1]))
            || (s[0] == 0xF4 && 0x80 <= s[1] <= 0x8F)))
  }

  /** The character number of section 3 of RFC 3629: the payload digits in order. */
  function DecodeUtf8(s: seq<Byte>): int
    requires IsUtf8Character(s)
  {
    var first: int := s[0];
    if |s| == 1 then first
    else if |s| == 2 then Payload(0, 0, first - 0xC0, s[1] - 0x80)
    else if |s| == 3 then Payload(0, first - 0xE0, s[1] - 0x80, s[2] - 0x80)
    else Payload(first - 0xF0, s[1] - 0x80, s[2] - 0x80, s[3] - 0x80)
  }

  /** Digits of base sixty-four. */
  function Payload(a: int, b: int, c: int, d: int): int {
    0x4_0000 * a + 0x1000 * b + 0x40 * c + d
  }

  lemma LowDigits(high: nat, low: nat)
    ensures low < 0x40 ==> (0x40 * high + low) / 0x40 == high && (0x40 * high + low) % 0x40 == low
    ensures low < 0x1000 ==> (0x1000 * high + low) / 0x1000 == high
    ensures low < 0x4_0000 ==> (0x4_0000 * high + low) / 0x4_0000 == high
  {}

  lemma PayloadDigits(a: nat, b: nat, c: nat, d: nat)
    requires b < 0x40 && c < 0x40 && d < 0x40
    ensures var n := Payload(a, b, c, d);
            n % 0x40 == d && n / 0x40 % 0x40 == c && n / 0x1000 % 0x40 == b && n / 0x4_0000 == a
            && n / 0x40 == Payload(0, a, b, c) && n / 0x1000 == Payload(0, 0, a, b)
  {
    LowDigits(Payload(0, a, b, c), d);
    LowDigits(Payload(0, 0, a, b), c);
    LowDigits(Payload(0, 0, a, b), 0x40 * c + d);
    LowDigits(a, b);
    LowDigits(a, 0x1000 * b + 0x40 * c + d);
  }

  lemma DigitsOf(n: nat) returns (a: nat, b: nat, c: nat, d: nat)
    ensures b < 0x40 && c < 0x40 && d < 0x40 && n == Payload(a, b, c, d)
  {
    a, b, c, d := n / 0x4_0000, n / 0x1000 % 0x40, n / 0x40 % 0x40, n % 0x40;
    var q, r := n / 0x40, n / 0x1000;
    assert q / 0x40 == r && r / 0x40 == a;
  }

  /** The encoder writes the one well-formed sequence that decodes to its code point. */
  lemma Utf8IsTheEncoding(codepoint: nat, s: seq<Byte>)
    requires IsScalar(codepoint)
    ensures s == Utf8(codepoint) <==> IsUtf8Character(s) && DecodeUtf8(s) == codepoint
  {
    Utf8Decodes(codepoint);
    if IsUtf8Character(s) && DecodeUtf8(s) == codepoint {
      DecodedEncodes(s);
    }
  }

  lemma Utf8Decodes(codepoint: nat)
    requires IsScalar(codepoint)
    ensures IsUtf8Character(Utf8(codepoint)) && DecodeUtf8(Utf8(codepoint)) == codepoint
  {
    var a, b, c, d := DigitsOf(codepoint);
    PayloadDigits(a, b, c, d);
  }

  lemma DecodedEncodes(s: seq<Byte>)
    requires IsUtf8Character(s)
    ensures 0 <= DecodeUtf8(s) <= 0x10_FFFF && Utf8(DecodeUtf8(s)) == s
  {
    if |s| == 2 {
      TwoBytes(s[0] - 0xC0, s[1] - 0x80);
    } else if |s| == 3 {
      ThreeBytes(s[0] - 0xE0, s[1] - 0x80, s[2] - 0x80);
    } else if |s| == 4 {
      FourBytes(s[0] - 0xF0, s[1] - 0x80, s[2] - 0x80, s[3] - 0x80);
    }
  }

  lemma TwoBytes(c: nat, d: nat)
    requires 2 <= c < 0x20 && d < 0x40
    ensures 0x80 <= Payload(0, 0, c, d) <= 0x7FF
    ensures Utf8(Payload(0, 0, c, d)) == [0xC0 + c, 0x80 + d]
  {
    LowDigits(c, d);
  }

  lemma ThreeBytes(b: nat, c: nat, d: nat)
    requires b < 0x10 && c < 0x40 && d < 0x40 && (b == 0 ==> c >= 0x20)
    ensures 0x800 <= Payload(0, b, c, d) <= 0xFFFF
    ensures Utf8(Payload(0, b, c, d)) == [0xE0 + b, 0x80 + c, 0x80 + d]
  {
    PayloadDigits(0, b, c, d);
  }

  lemma FourBytes(a: nat, b: nat, c: nat, d: nat)
    requires a <= 4 && b < 0x40 && c < 0x40 && d < 0x40 && (a == 0 ==> b >= 0x10) && (a == 4 ==> b < 0x10)
    ensures 0x1_0000 <= Payload(a, b, c, d) <= 0x10_FFFF
    ensures Utf8(Payload(a, b, c, d)) == [0xF0 + a, 0x80 + b, 0x80 + c, 0x80 + d]
  {
    PayloadDigits(a, b, c, d);
  }

  /** The reading half of `utf16_literal_to_utf8`; a length of zero stands for its failure. */
  method ReadEscape(input: seq<Byte>, p: nat, end: nat) returns (sequenceLength: nat, codepoint: nat)
    requires p <= end <= |input|
    ensures DecodeEscape(input, p, end) == if sequenceLength == 0 then Bad else Decoded(codepoint, sequenceLength)
    ensures codepoint <= 0x10_FFFF
  {
    hide HexValue, Hex4;
    sequenceLength, codepoint := 0, 0;
    if end - p < 6 {
      return;
    }
    var first := ParseHex4(input, p + 2);
    Hex4Bound(input[p + 2..p + 6]);
    if 0xDC00 <= first <= 0xDFFF {
      return;
    }
    if 0xD800 <= first <= 0xDBFF {
      var q := p + 6;
      if end - q < 6 {
        return;
      }
      if input[q] != BACKSLASH || input[q + 1] != LOWER_U {
        return;
      }
      var second := ParseHex4(input, q + 2);
      if second < 0xDC00 || second > 0xDFFF {
        return;
      }
      LowTenDigits(first, second);
      codepoint := 0x1_0000 + 0x400 * (first % 0x400) + second % 0x400;
      sequenceLength := 12;
    } else {
      codepoint := first;
      sequenceLength := 6;
    }
  }

  lemma LowTenDigits(high: nat, low: nat)
    requires IsHighSurrogate(high) && IsLowSurrogate(low)
    ensures 0x1_0000 + 0x400 * (high % 0x400) + low % 0x400 == PairCodepoint(high, low) <= 0x10_FFFF
  {}

  /** `utf16_literal_to_utf8`: zero and nothing written, or the length read and the bytes of the character. */
  method Utf16LiteralToUtf8(input: seq<Byte>, p: nat, end: nat, output: array<Byte>, o: nat)
    returns (sequenceLength: nat, o': nat)
    requires p <= end <= |input| && o <= output.Length
    requires var e := DecodeEscape(input, p, end);
             e.Decoded? && e.codepoint <= 0x10_FFFF ==> o + |Utf8(e.codepoint)| <= output.Length
    modifies output
    ensures var e := DecodeEscape(input, p, end);
            if e.Bad? then sequenceLength == 0 && o' == o && output[..] == old(output[..])
            else e.codepoint <= 0x10_FFFF && sequenceLength == e.length > 0
                    && o' == o + |Utf8(e.codepoint)| <= output.Length
                 && output[o..o'] == Utf8(e.codepoint) && output[..o] == old(output[..o])
  {
    hide DecodeEscape, Utf8;
    var codepoint;
    sequenceLength, codepoint := ReadEscape(input, p, end);
    o' := o;
    if sequenceLength != 0 {
      o' := WriteUtf8(codepoint, output, o);
    }
  }

  /** Continuation bytes from the last to the first, six digits each, then the marked first byte. */
  method WriteUtf8(scalar: nat, output: array<Byte>, o: nat) returns (o': nat)
    requires scalar <= 0x10_FFFF && o + |Utf8(scalar)| <= output.Length
    modifies output
    ensures o' == o + |Utf8(scalar)| && output[o..o'] == Utf8(scalar)
    ensures output[..o] == old(output[..o])
  {
    hide Utf8, DropSixes, Continuation;
    var codepoint := scalar;
    var length, mark := LengthAndMark(codepoint);
    ghost var s := Utf8(scalar);
    var position := length - 1;
    NothingDropped(scalar);
    while position > 0
      invariant 0 <= position < length == |s|
      invariant codepoint == DropSixes(scalar, length - 1 - position)
      invariant forall i :: 0 <= i < o ==> output[i] == old(output[i])
      invariant forall i :: position < i < length ==> output[o + i] == s[i]
    {
      Utf8Continues(scalar, length - 1 - position);
      output[o + position] := Continuation(codepoint);
      OneMoreDropped(scalar, length - 1 - position);
      codepoint := codepoint / 0x40;
      position := position - 1;
    }
    Utf8Starts(scalar);
    output[o] := mark + codepoint;
    o' := o + length;
    assert forall i :: 0 <= i < length ==> output[o + i] == s[i];
  }

  /** How many bytes, and the mark that says so in the first of them. */
  method LengthAndMark(codepoint: nat) returns (length: nat, mark: nat)
    requires codepoint <= 0x10_FFFF
    ensures length == |Utf8(codepoint)| && mark == FirstByteMark(length)
  {
    if codepoint < 0x80 {
      length, mark := 1, 0;
    } else if codepoint < 0x800 {
      length, mark := 2, 0xC0;
    } else if codepoint < 0x1_0000 {
      length, mark := 3, 0xE0;
    } else {
      length, mark := 4, 0xF0;
    }
  }

  function FirstByteMark(length: nat): nat {
    if length == 1 then 0 else if length == 2 then 0xC0 else if length == 3 then 0xE0 else 0xF0
  }

  /** The code point without its last `n` groups of six digits. */
  function DropSixes(codepoint: nat, n: nat): nat {
    if n == 0 then codepoint else DropSixes(codepoint, n - 1) / 0x40
  }

  lemma DroppedSixes(codepoint: nat)
    ensures DropSixes(codepoint, 1) == codepoint / 0x40
    ensures DropSixes(codepoint, 2) == codepoint / 0x1000
    ensures DropSixes(codepoint, 3) == codepoint / 0x4_0000
  {
    var a, b, c, d := DigitsOf(codepoint);
    PayloadDigits(a, b, c, d);
    LowDigits(a, b);
    assert DropSixes(codepoint, 1) == DropSixes(codepoint, 0) / 0x40;
    assert DropSixes(codepoint, 2) == DropSixes(codepoint, 1) / 0x40;
    assert DropSixes(codepoint, 3) == DropSixes(codepoint, 2) / 0x40;
  }

  lemma Utf8Continues(codepoint: nat, n: nat)
    requires codepoint <= 0x10_FFFF && n < |Utf8(codepoint)| - 1
    ensures Utf8(codepoint)[|Utf8(codepoint)| - 1 - n] == Continuation(DropSixes(codepoint, n))
  {
    hide DropSixes;
    DroppedSixes(codepoint);
    assert DropSixes(codepoint, 0) == codepoint by {
      NothingDropped(codepoint);
    }
  }

  lemma NothingDropped(codepoint: nat)
    ensures DropSixes(codepoint, 0) == codepoint
  {}

  lemma OneMoreDropped(codepoint: nat, n: nat)
    ensures DropSixes(codepoint, n + 1) == DropSixes(codepoint, n) / 0x40
  {}

  lemma Utf8Starts(codepoint: nat)
    requires codepoint <= 0x10_FFFF
    ensures var s := Utf8(codepoint);
            s[0] == FirstByteMark(|s|) + DropSixes(codepoint, |s| - 1)
  {
    hide DropSixes;
    DroppedSixes(codepoint);
    NothingDropped(codepoint);
  }
}
