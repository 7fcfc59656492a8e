/** JSON string literals of fern/cJSON.c: the two passes of `parse_string` and the escaper of `print_string_ptr`. */
module JsonStrings {
  import opened Bits
  import opened Options
  import opened UnicodeEscapes

  const QUOTE: Byte := 0x22

  // ----- First pass: find the closing quote -----

  /** The quote that ends a literal whose body starts at `p`, a backslash hiding the byte after it. */
  function ClosingQuote(content: seq<Byte>, p: nat): (r: Option<nat>)
    requires p <= |content|
    ensures r.Some? ==> p <= r.value < |content| && content[r.value] == QUOTE
    decreases |content| - p
  {
    if p == |content| then None
    else if content[p] == QUOTE then Some(p)
    else if content[p] != BACKSLASH then ClosingQuote(content, p + 1)
    else if p + 1 == |content| then None
    else ClosingQuote(content, p + 2)
  }

  /** `p` starts one of the first pass's units of a literal that ends at `end`. */
  predicate Boundary(content: seq<Byte>, p: nat, end: nat) {
    p <= |content| && ClosingQuote(content, p) == Some(end)
  }

  /** How many plain bytes and backslash pairs the first pass sees from `p` on. */
  function Units(content: seq<Byte>, p: nat, end: nat): nat
    requires Boundary(content, p, end)
    decreases end - p
  {
    if p == end then 0
    else if content[p] == BACKSLASH then 1 + Units(content, p + 2, end)
    else 1 + Units(content, p + 1, end)
  }

  /** The first loop of `parse_string`: the closing quote and the number of backslashes to discount. */
  method FindClosingQuote(content: seq<Byte>, start: nat) returns (found: bool, end: nat, skipped: nat)
    requires start <= |content|
    ensures found <==> ClosingQuote(content, start).Some?
    ensures found ==> Boundary(content, start, end) && Units(content, start, end) + skipped == end - start
  {
    found, end, skipped := false, start, 0;
    ghost var quote := ClosingQuote(content, start);
    while end < |content| && content[end] != QUOTE
      invariant start <= end <= |content|
      invariant ClosingQuote(content, end) == quote
      invariant quote.Some? ==> end <= quote.value
                                && Units(content, start, quote.value) + skipped
                                   == end - start + Units(content, end, quote.value)
      decreases |content| - end
    {
      if content[end] == BACKSLASH {
        if end + 1 >= |content| {
          return;
        }
        skipped := skipped + 1;
        end := end + 1;
      }
      end := end + 1;
    }
    found := end < |content|;
  }

  // ----- Second pass: unescape -----

  /** The byte a one-letter escape stands for. */
  function SimpleEscape(letter: Byte): Option<Byte> {
    if letter == 0x62 then Some(0x08)
    else if letter == 0x66 then Some(0x0C)
    else if letter == 0x6E then Some(0x0A)
    else if letter == 0x72 then Some(0x0D)
    else if letter == 0x74 then Some(0x09)
    else if letter == QUOTE || letter == BACKSLASH || letter == 0x2F then Some(letter)
    else None
  }

  /** Bytes written, where reading stopped, and whether it stopped because the literal was over. */
  datatype Unescaped = Unescaped(bytes: seq<Byte>, stop: nat, ok: bool) {
    function After(prefix: seq<Byte>): Unescaped {
      Unescaped(prefix + bytes, stop, ok)
    }
  }

  function Unescape(content: seq<Byte>, p: nat, end: nat): Unescaped
    requires end < |content|
    decreases |content| - p
  {
    if p >= end then Unescaped([], p, true)
    else if content[p] != BACKSLASH then Unescape(content, p + 1, end).After([content[p]])
    else if content[p + 1] == LOWER_U then
      var e := DecodeEscape(content, p, end);
      if e.Bad? then Unescaped([], p, false)
      else
        DecodedIsScalar(content, p, end);
        Unescape(content, p + e.length, end).After(Utf8(e.codepoint))
    else
      var simple := SimpleEscape(content[p + 1]);
      if simple.None? then Unescaped([], p, false)
      else Unescape(content, p + 2, end).After([simple.value])
  }

  // ----- The first pass's estimate bounds what the second pass writes -----

  lemma {:induction false} PlainBytesAreUnits(content: seq<Byte>, p: nat, q: nat, end: nat)
    requires Boundary(content, p, end) && p <= q <= end
    requires forall i :: p <= i < q ==> content[i] != BACKSLASH
    ensures Boundary(content, q, end) && Units(content, p, end) == q - p + Units(content, q, end)
    decreases q - p
  {
    if p < q {
      PlainBytesAreUnits(content, p + 1, q, end);
    }
  }

  /** Any position is a boundary of the first pass or the second byte of one of its pairs. */
  lemma {:induction false} BoundaryOrInside(content: seq<Byte>, p: nat, q: nat, end: nat)
    requires Boundary(content, p, end) && p <= q <= end
    ensures || (Boundary(content, q, end) && 2 * Units(content, p, end) >= q - p + 2 * Units(content, q, end))
            || (q < end && Boundary(content, q + 1, end)
                && 2 * Units(content, p, end) >= q + 1 - p + 2 * Units(content, q + 1, end))
    decreases end - p
  {
    if p == q {
    } else if content[p] != BACKSLASH {
      BoundaryOrInside(content, p + 1, q, end);
    } else if q == p + 1 {
    } else {
      BoundaryOrInside(content, p + 2, q, end);
    }
  }

  /** The four bytes after a `\u` are four units if they are digits, and at least two units whatever they are. */
  lemma EscapeUnits(content: seq<Byte>, p: nat, end: nat)
    requires Boundary(content, p, end) && p + 4 <= end < |content|
    ensures AllHexDigits(content[p..p + 4]) ==>
              Boundary(content, p + 4, end) && Units(content, p, end) == 4 + Units(content, p + 4, end)
    ensures || (Boundary(content, p + 4, end) && Units(content, p, end) >= 2 + Units(content, p + 4, end))
            || (p + 4 < end && Boundary(content, p + 5, end)
                && Units(content, p, end) >= 3 + Units(content, p + 5, end))
  {
    var s := content[p..p + 4];
    if AllHexDigits(s) {
      forall i | p <= i < p + 4
        ensures content[i] != BACKSLASH
      {
        assert content[i] == s[i - p];
      }
      PlainBytesAreUnits(content, p, p + 4, end);
    }
    BoundaryOrInside(content, p, p + 4, end);
  }

  /** What a decoded escape writes never exceeds the units it covers, wherever reading resumes. */
  lemma DecodedEscapeFits(content: seq<Byte>, p: nat, end: nat)
    requires p + 2 <= end < |content| && Boundary(content, p + 2, end)
    requires DecodeEscape(content, p, end).Decoded?
    ensures var e := DecodeEscape(content, p, end);
            var q := p + e.length;
            && e.codepoint <= 0x10_FFFF && q <= end
            && (|| (Boundary(content, q, end)
                    && |Utf8(e.codepoint)| + Units(content, q, end) <= Units(content, p + 2, end))
                || (q < end && Boundary(content, q + 1, end)
                    && |Utf8(e.codepoint)| + 1 + Units(content, q + 1, end) <= Units(content, p + 2, end)))
  {
    var e := DecodeEscape(content, p, end);
    DecodedIsScalar(content, p, end);
    EscapeUnits(content, p + 2, end);
    if e.length == 12 {
      assert Units(content, p + 6, end) == 1 + Units(content, p + 8, end);
      EscapeUnits(content, p + 8, end);
    }
  }

  /** The estimate holds from a boundary, and one byte over from the inside of a pair. */
  lemma {:induction false} UnescapeFits(content: seq<Byte>, p: nat, end: nat, inside: bool)
    requires p <= end < |content|
    requires if inside then p < end && Boundary(content, p + 1, end) else Boundary(content, p, end)
    ensures var u := Unescape(content, p, end);
            u.stop <= end + 1 &&
            |u.bytes| <= if inside then 1 + Units(content, p + 1, end) else Units(content, p, end)
    decreases |content| - p
  {
    if p == end {
    } else if content[p] != BACKSLASH {
      UnescapeFits(content, p + 1, end, false);
    } else if content[p + 1] == LOWER_U {
      var e := DecodeEscape(content, p, end);
      if e.Decoded? {
        DecodedEscapeFits(content, p, end);
        var q := p + e.length;
        if Boundary(content, q, end) && |Utf8(e.codepoint)| + Units(content, q, end) <= Units(content, p + 2, end) {
          UnescapeFits(content, q, end, false);
        } else {
          UnescapeFits(content, q, end, true);
        }
      }
    } else if SimpleEscape(content[p + 1]).Some? {
      if !inside {
        UnescapeFits(content, p + 2, end, false);
      } else if p + 1 < end {
        UnescapeFits(content, p + 2, end, content[p + 1] == BACKSLASH);
      }
    }
  }

  /** For every literal the first pass accepts, well-formed or not, the allocation holds the output and its NUL. */
  lemma EstimateIsUpperBound(content: seq<Byte>, start: nat, end: nat)
    requires 0 < start && Boundary(content, start, end)
    ensures start <= end < |content|
    ensures var skipped := end - start - Units(content, start, end);
            |Unescape(content, start, end).bytes| + 1 <= (end - (start - 1)) - skipped + 1
    ensures Unescape(content, start, end).stop <= end + 1
  {
    UnescapeFits(content, start, end, false);
  }

  // ----- `parse_string` -----

  /** The bytes of a C string: those before the first NUL. */
  function CString(s: seq<Byte>): (r: seq<Byte>)
    ensures 0 !in r && r <= s
    ensures 0 !in s ==> r == s
    ensures r == s || (|r| < |s| && s[|r|] == 0)
  {
    if s == [] || s[0] == 0 then [] else [s[0]] + CString(s[1..])
  }

  /** A value and the offset just after it, or the offset of the error. */
  datatype Parsed<+T> = Parsed(value: T, offset: nat) | Failed(offset: nat)

  function ParseStringAt(content: seq<Byte>, offset: nat): Parsed<seq<Byte>>
    requires offset < |content|
  {
    if content[offset] != QUOTE || ClosingQuote(content, offset + 1).None? then Failed(offset + 1)
    else
      var end := ClosingQuote(content, offset + 1).value;
      var u := Unescape(content, offset + 1, end);
      if u.ok then Parsed(CString(u.bytes), end + 1) else Failed(u.stop)
  }

  /** One turn of the second loop: what is written and what is still to be written make up the whole. */
  method UnescapeStep(content: seq<Byte>, p: nat, end: nat, output: array<Byte>, o: nat, ghost total: Unescaped)
    returns (ok: bool, p': nat, o': nat)
    requires p < end < |content| && o <= output.Length
    requires total == Unescape(content, p, end).After(output[..o]) && |total.bytes| < output.Length
    modifies output
    ensures o' < output.Length
    ensures ok ==> p < p' && total == Unescape(content, p', end).After(output[..o'])
    ensures !ok ==> total == Unescaped(output[..o'], p', false)
  {
    hide DecodeEscape, Utf8, SimpleEscape;
    ok, p', o' := true, p, o;
    if content[p] != BACKSLASH {
      output[o] := content[p];
      p', o' := p + 1, o + 1;
      Appended(Unescape(content, p', end), output[..o], output[..o'], [content[p]]);
      return;
    }
    if content[p + 1] == LOWER_U {
      ghost var e := DecodeEscape(content, p, end);
      if e.Decoded? {
        DecodedIsScalar(content, p, end);
      }
      var length;
      length, o' := Utf16LiteralToUtf8(content, p, end, output, o);
      if length == 0 {
        ok := false;
        return;
      }
      p' := p + length;
      Appended(Unescape(content, p', end), output[..o], output[..o'], Utf8(e.codepoint));
      return;
    }
    var simple := SimpleEscape(content[p + 1]);
    if simple.None? {
      ok := false;
      return;
    }
    output[o] := simple.value;
    p', o' := p + 2, o + 1;
    Appended(Unescape(content, p', end), output[..o], output[..o'], [simple.value]);
  }

  lemma Appended(u: Unescaped, s: seq<Byte>, s': seq<Byte>, t: seq<Byte>)
    requires s' == s + t
    ensures u.After(t).After(s) == u.After(s')
  {
    assert s + (t + u.bytes) == s + t + u.bytes;
  }

  /** The second loop of `parse_string`, into a buffer that is never written past its end. */
  method UnescapeInto(content: seq<Byte>, start: nat, end: nat, output: array<Byte>)
    returns (ok: bool, p: nat, o: nat)
    requires start <= end < |content| && |Unescape(content, start, end).bytes| < output.Length
    modifies output
    ensures o < output.Length && Unescape(content, start, end) == Unescaped(output[..o], p, ok)
  {
    ghost var total := Unescape(content, start, end);
    p, o, ok := start, 0, true;
    assert output[..o] == [] && total.bytes == [] + total.bytes;
    while p < end
      invariant o < output.Length
      invariant total == Unescape(content, p, end).After(output[..o])
      decreases end - p
    {
      ok, p, o := UnescapeStep(content, p, end, output, o, total);
      if !ok {
        return;
      }
    }
    assert output[..o] + [] == output[..o];
  }

  /** `parse_string`: both passes, with the allocation the first one asks for. */
  method ParseString(content: seq<Byte>, offset: nat) returns (ok: bool, value: seq<Byte>, offset': nat)
    requires offset < |content|
    ensures ParseStringAt(content, offset) == if ok then Parsed(value, offset') else Failed(offset')
  {
    hide Unescape, CString;
    ok, value, offset' := false, [], offset + 1;
    if content[offset] != QUOTE {
      return;
    }
    var found, end, skipped := FindClosingQuote(content, offset + 1);
    if !found {
      return;
    }
    var allocationLength := end - offset - skipped;
    EstimateIsUpperBound(content, offset + 1, end);
    var output := new Byte[allocationLength + 1];
    var p, o;
    ok, p, o := UnescapeInto(content, offset + 1, end, output);
    if !ok {
      offset' := p;
      return;
    }
    output[o] := 0;
    value := CString(output[..o]);
    offset' := end + 1;
  }

  // ----- `print_string_ptr` -----

  /** The letter of a byte's one-letter escape. */
  function EscapeLetter(b: Byte): Option<Byte> {
    if b == QUOTE || b == BACKSLASH then Some(b)
    else if b == 0x08 then Some(0x62)
    else if b == 0x0C then Some(0x66)
    else if b == 0x0A then Some(0x6E)
    else if b == 0x0D then Some(0x72)
    else if b == 0x09 then Some(0x74)
    else None
  }

  /** A digit of `%04x`. */
  function LowerHexDigit(v: nat): Byte
    requires v < 0x10
  {
    if v < 10 then 0x30 + v else 0x61 + v - 10
  }

  function EscapeByte(b: Byte): (s: seq<Byte>)
    ensures 1 <= |s|
  {
    if EscapeLetter(b).Some? then [BACKSLASH, EscapeLetter(b).value]
    else if b < 0x20 then [BACKSLASH, LOWER_U, 0x30, 0x30, LowerHexDigit(b / 0x10), LowerHexDigit(b % 0x10)]
    else [b]
  }

  function EscapeBytes(s: seq<Byte>): seq<Byte> {
    if s == [] then [] else EscapeByte(s[0]) + EscapeBytes(s[1..])
  }

  /** The text printed for a string: quoted and escaped. */
  function Literal(s: seq<Byte>): seq<Byte> {
    [QUOTE] + EscapeBytes(s) + [QUOTE]
  }

  /** The additional characters the counting pass reckons for a byte. */
  function EscapeCost(b: Byte): nat {
    if EscapeLetter(b).Some? then 1 else if b < 0x20 then 5 else 0
  }

  function EscapeCosts(s: seq<Byte>): nat {
    if s == [] then 0 else EscapeCost(s[0]) + EscapeCosts(s[1..])
  }

  /** The counting pass predicts exactly what the writing pass writes. */
  lemma {:induction false} CountIsExact(s: seq<Byte>)
    ensures |EscapeBytes(s)| == |s| + EscapeCosts(s)
    ensures EscapeCosts(s) == 0 ==> EscapeBytes(s) == s
  {
    if s != [] {
      CountIsExact(s[1..]);
    }
  }

  // ----- Where text stands -----

  /** `t` stands in `content` at `p`. */
  predicate StandsAt(content: seq<Byte>, p: nat, t: seq<Byte>) {
    p + |t| <= |content| && content[p..p + |t|] == t
  }

  lemma StandsSplit(content: seq<Byte>, p: nat, s: seq<Byte>, t: seq<Byte>)
    ensures StandsAt(content, p, s + t) <==> StandsAt(content, p, s) && StandsAt(content, p + |s|, t)
  {
    if StandsAt(content, p, s + t) {
      assert content[p..p + |s|] == (s + t)[..|s|] == s;
      assert content[p + |s|..p + |s| + |t|] == (s + t)[|s|..] == t;
    }
    if StandsAt(content, p, s) && StandsAt(content, p + |s|, t) {
      assert content[p..p + |s + t|] == content[p..p + |s|] + content[p + |s|..p + |s + t|];
    }
  }

  lemma StandsIndex(content: seq<Byte>, p: nat, t: seq<Byte>, i: nat)
    requires StandsAt(content, p, t) && i < |t|
    ensures content[p + i] == t[i]
  {
    assert content[p..p + |t|][i] == t[i];
  }
}
