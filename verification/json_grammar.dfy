/**
 JSON texts as RFC 8259 spells them, byte by byte, with any white space, any escapes and any numbers, and what the
 parser of fern/cJSON.c reads. Nothing here is taken from the parser: all bytes are written out.
 */
module JsonGrammar {
  import opened Bits
  import opened JsonStringGrammar
  import opened JsonStrings
  import opened JsonText

  // ----- Numbers, section 6 -----

  predicate IsDigit(b: Byte) {
    0x30 <= b <= 0x39
  }

  /** The index after a run of digits. */
  function AfterDigits(t: seq<Byte>, i: nat): (j: nat)
    requires i <= |t|
    ensures i <= j <= |t| && (forall k :: i <= k < j ==> IsDigit(t[k])) && (j < |t| ==> !IsDigit(t[j]))
    decreases |t| - i
  {
    if i < |t| && IsDigit(t[i]) then AfterDigits(t, i + 1) else i
  }

  /** Optionally e or E, a sign, and digits to the end. */
  predicate IsExponent(t: seq<Byte>, i: nat)
    requires i <= |t|
  {
    || i == |t|
    || (&& (t[i] == 0x65 || t[i] == 0x45)
        && var j := if i + 1 < |t| && (t[i + 1] == 0x2B || t[i + 1] == 0x2D) then i + 2 else i + 1;
           j < |t| && AfterDigits(t, j) == |t|)
  }

  /** Optionally a point and digits, and then the exponent. */
  predicate IsFraction(t: seq<Byte>, i: nat)
    requires i <= |t|
  {
    if i < |t| && t[i] == 0x2E then AfterDigits(t, i + 1) > i + 1 && IsExponent(t, AfterDigits(t, i + 1))
    else IsExponent(t, i)
  }

  /** Optionally a minus, a zero or digits that do not start with zero, a fraction and an exponent. */
  predicate IsNumber(t: seq<Byte>) {
    var i := if |t| > 0 && t[0] == 0x2D then 1 else 0;
    && i < |t| && IsDigit(t[i])
    && (if t[i] == 0x30 then IsFraction(t, i + 1) else IsFraction(t, AfterDigits(t, i)))
  }

  /** The bytes that numbers are made of. */
  predicate InNumber(b: Byte) {
    IsDigit(b) || b == 0x2B || b == 0x2D || b == 0x2E || b == 0x45 || b == 0x65
  }

  /** A token that is read as one number: made of the bytes of numbers, not longer than the parser's copy, and taken
      whole by `strtod`. */
  predicate IsToken(c: NumberCodec, t: seq<Byte>) {
    && 1 <= |t| <= 63 && (t[0] == 0x2D || IsDigit(t[0])) && (forall k :: 0 <= k < |t| ==> InNumber(t[k]))
    && c.strtod(t).1 == |t|
  }

  lemma ExponentIsInNumber(t: seq<Byte>, i: nat)
    requires i <= |t| && IsExponent(t, i)
    ensures forall k :: i <= k < |t| ==> InNumber(t[k])
  {
    if i < |t| {
      var j := if i + 1 < |t| && (t[i + 1] == 0x2B || t[i + 1] == 0x2D) then i + 2 else i + 1;
      assert forall k :: j <= k < |t| ==> IsDigit(t[k]);
    }
  }

  lemma FractionIsInNumber(t: seq<Byte>, i: nat)
    requires i <= |t| && IsFraction(t, i)
    ensures forall k :: i <= k < |t| ==> InNumber(t[k])
  {
    if i < |t| && t[i] == 0x2E {
      ExponentIsInNumber(t, AfterDigits(t, i + 1));
    } else {
      ExponentIsInNumber(t, i);
    }
  }

  /** Every number of RFC 8259 of at most 63 bytes that `strtod` takes whole is a token. */
  lemma NumbersAreTokens(c: NumberCodec, t: seq<Byte>)
    requires IsNumber(t) && |t| <= 63 && c.strtod(t).1 == |t|
    ensures IsToken(c, t)
  {
    var i := if |t| > 0 && t[0] == 0x2D then 1 else 0;
    if t[i] == 0x30 {
      FractionIsInNumber(t, i + 1);
    } else {
      FractionIsInNumber(t, AfterDigits(t, i));
    }
  }

  // ----- Values, sections 2 to 5 -----

  /** A way to spell a value. */
  datatype Spelling =
    | NullWord
    | FalseWord
    | TrueWord
    | NumberToken(token: seq<Byte>)
    | StringUnits(units: seq<Unit>)
    | ArrayOf(blank: seq<Byte>, elements: seq<Element>)
    | ObjectOf(blank: seq<Byte>, entries: seq<Entry>)

  /** An element with the white space around it. */
  datatype Element = Element(before: seq<Byte>, value: Spelling, after: seq<Byte>)

  /** A member: white space, key, white space, colon, white space, value, white space. */
  datatype Entry = Entry(before: seq<Byte>, key: seq<Unit>, beforeColon: seq<Byte>, afterColon: seq<Byte>,
                         value: Spelling, after: seq<Byte>)

  /** White space: space, tab, line feed, carriage return, and the other control characters that cJSON skips too. */
  predicate Blank(s: seq<Byte>) {
    forall i :: 0 <= i < |s| ==> 0 < s[i] <= 0x20
  }

  predicate Valid(c: NumberCodec, s: Spelling) {
    match s
    case NumberToken(t) => IsToken(c, t)
    case StringUnits(units) => ValidUnits(units)
    case ArrayOf(blank, elements) =>
      Blank(blank) && forall i :: 0 <= i < |elements| ==> ValidElement(c, elements[i])
    case ObjectOf(blank, entries) =>
      Blank(blank) && forall i :: 0 <= i < |entries| ==> ValidEntry(c, entries[i])
    case _ => true
  }

  predicate ValidElement(c: NumberCodec, e: Element) {
    Blank(e.before) && Valid(c, e.value) && Blank(e.after)
  }

  predicate ValidEntry(c: NumberCodec, e: Entry) {
    && Blank(e.before) && ValidUnits(e.key) && Blank(e.beforeColon) && Blank(e.afterColon)
    && Valid(c, e.value) && Blank(e.after)
  }

  /** The bytes of a spelling. */
  function Text(c: NumberCodec, s: Spelling): seq<Byte>
    requires Valid(c, s)
    decreases s, 0
  {
    match s
    case NullWord => [0x6E, 0x75, 0x6C, 0x6C]
    case FalseWord => [0x66, 0x61, 0x6C, 0x73, 0x65]
    case TrueWord => [0x74, 0x72, 0x75, 0x65]
    case NumberToken(t) => t
    case StringUnits(units) => StringText(units)
    case ArrayOf(blank, elements) =>
      [0x5B] + ((if elements == [] then blank else ElementsText(c, elements)) + [0x5D])
    case ObjectOf(blank, entries) =>
      [0x7B] + ((if entries == [] then blank else EntriesText(c, entries)) + [0x7D])
  }

  function ElementText(c: NumberCodec, e: Element): seq<Byte>
    requires ValidElement(c, e)
    decreases e, 1
  {
    e.before + (Text(c, e.value) + e.after)
  }

  /** Elements with commas between them. */
  function ElementsText(c: NumberCodec, elements: seq<Element>): seq<Byte>
    requires elements != [] && forall i :: 0 <= i < |elements| ==> ValidElement(c, elements[i])
    decreases elements, 2
  {
    if |elements| == 1 then ElementText(c, elements[0])
    else ElementText(c, elements[0]) + ([0x2C] + ElementsText(c, elements[1..]))
  }

  function EntryText(c: NumberCodec, e: Entry): (s: seq<Byte>)
    requires ValidEntry(c, e)
    ensures |e.after| <= |s|
    decreases e, 1
  {
    e.before + (StringText(e.key) + (e.beforeColon + ([0x3A] + (e.afterColon + (Text(c, e.value) + e.after)))))
  }

  function EntriesText(c: NumberCodec, entries: seq<Entry>): seq<Byte>
    requires entries != [] && forall i :: 0 <= i < |entries| ==> ValidEntry(c, entries[i])
    decreases entries, 2
  {
    if |entries| == 1 then EntryText(c, entries[0])
    else EntryText(c, entries[0]) + ([0x2C] + EntriesText(c, entries[1..]))
  }

  /** The value that is spelled. */
  function Value(c: NumberCodec, s: Spelling): Json
    decreases s, 0
  {
    match s
    case NullWord => Null
    case FalseWord => False
    case TrueWord => True
    case NumberToken(t) => Number(c.strtod(t).0)
    case StringUnits(units) => String(CString(UnitsBytes(units)))
    case ArrayOf(_, elements) => Array(ElementValues(c, elements))
    case ObjectOf(_, entries) => Object(EntryValues(c, entries))
  }

  function ElementValues(c: NumberCodec, elements: seq<Element>): (r: seq<Json>)
    ensures |r| == |elements|
    decreases elements, 1
  {
    if elements == [] then [] else [Value(c, elements[0].value)] + ElementValues(c, elements[1..])
  }

  function EntryValue(c: NumberCodec, e: Entry): Member
    decreases e, 1
  {
    Member(CString(UnitsBytes(e.key)), Value(c, e.value))
  }

  function EntryValues(c: NumberCodec, entries: seq<Entry>): (r: seq<Member>)
    ensures |r| == |entries|
    decreases entries, 2
  {
    if entries == [] then [] else [EntryValue(c, entries[0])] + EntryValues(c, entries[1..])
  }

  lemma ConsElements(c: NumberCodec, e: Element, rest: seq<Element>)
    requires ValidElement(c, e) && forall i :: 0 <= i < |rest| ==> ValidElement(c, rest[i])
    ensures var r := [e] + rest;
            && (forall i :: 0 <= i < |r| ==> ValidElement(c, r[i]))
            && ElementValues(c, r) == [Value(c, e.value)] + ElementValues(c, rest)
            && ElementsText(c, r)
               == if rest == [] then ElementText(c, e) else ElementText(c, e) + ([0x2C] + ElementsText(c, rest))
  {
    hide Value, ElementText, ValidElement;
    assert ([e] + rest)[1..] == rest;
  }

  lemma ConsEntries(c: NumberCodec, e: Entry, rest: seq<Entry>)
    requires ValidEntry(c, e) && forall i :: 0 <= i < |rest| ==> ValidEntry(c, rest[i])
    ensures var r := [e] + rest;
            && (forall i :: 0 <= i < |r| ==> ValidEntry(c, r[i]))
            && EntryValues(c, r) == [EntryValue(c, e)] + EntryValues(c, rest)
            && EntriesText(c, r)
               == if rest == [] then EntryText(c, e) else EntryText(c, e) + ([0x2C] + EntriesText(c, rest))
  {
    hide EntryValue, EntryText, ValidEntry;
    assert ([e] + rest)[1..] == rest;
  }

  // ----- White space is skipped -----

  lemma {:induction false} BlankIsSkipped(content: seq<Byte>, p: nat, ws: seq<Byte>)
    requires Blank(ws) && StandsAt(content, p, ws) && p + |ws| < |content| && content[p + |ws|] > 0x20
    ensures SkipWhitespace(content, p) == p + |ws|
    decreases |ws|
  {
    if ws != [] {
      StandsIndex(content, p, ws, 0);
      assert [ws[0]] + ws[1..] == ws;
      StandsSplit(content, p, [ws[0]], ws[1..]);
      BlankIsSkipped(content, p + 1, ws[1..]);
    }
  }

  lemma {:induction false} SkippedIsSkipped(content: seq<Byte>, p: nat)
    requires p < |content|
    ensures SkipWhitespace(content, SkipWhitespace(content, p)) == SkipWhitespace(content, p)
    decreases |content| - p
  {
    if content[p] <= 0x20 && p + 1 < |content| {
      SkippedIsSkipped(content, p + 1);
    }
  }

  /** The byte after some white space and a byte that is not. */
  lemma AfterBlank(content: seq<Byte>, p: nat, ws: seq<Byte>, b: Byte)
    requires Blank(ws) && b > 0x20 && StandsAt(content, p, ws + [b])
    ensures p + |ws| < |content| && content[p + |ws|] == b && SkipWhitespace(content, p) == p + |ws|
    ensures content[p] == b || content[p] <= 0x20
  {
    StandsSplit(content, p, ws, [b]);
    LastByteStands(content, p + |ws|, b);
    BlankIsSkipped(content, p, ws);
    if ws != [] {
      StandsIndex(content, p, ws, 0);
    }
  }

  // ----- Every spelling is read -----

  /** `r` is the value `j` up to `end`, or a failure, as the nesting limit of 1000 decides. */
  ghost predicate Reads(r: Parsed<Json>, j: Json, end: nat, depth: nat) {
    if depth + Nesting(j) <= 1000 then r == Parsed(j, end) else r.Failed?
  }

  lemma {:induction false} RunOfToken(content: seq<Byte>, p: nat, t: seq<Byte>, room: nat)
    requires StandsAt(content, p, t) && |t| <= room && p + |t| < |content|
    requires forall i :: 0 <= i < |t| ==> InNumber(t[i])
    requires !InNumber(content[p + |t|])
    ensures NumberRunEnd(content, p, room) == p + |t|
    decreases |t|
  {
    if t != [] {
      StandsIndex(content, p, t, 0);
      assert [t[0]] + t[1..] == t;
      StandsSplit(content, p, [t[0]], t[1..]);
      RunOfToken(content, p + 1, t[1..], room - 1);
    }
  }

  lemma NumberIsRead(c: NumberCodec, content: seq<Byte>, p: nat, t: seq<Byte>, depth: nat)
    requires Terminated(content) && IsToken(c, t) && StandsAt(content, p, t)
    requires p + |t| < |content| && !InNumber(content[p + |t|])
    ensures ParseValue(c, content, p, depth) == Parsed(Number(c.strtod(t).0), p + |t|)
  {
    StandsIndex(content, p, t, 0);
    NoWord(content, p);
    RunOfToken(content, p, t, 63);
  }

  /** Every number of RFC 8259 of at most 63 bytes is read whole, whatever follows that is not part of a number. */
  lemma NumbersAreRead(c: NumberCodec, content: seq<Byte>, p: nat, t: seq<Byte>, depth: nat)
    requires Terminated(content) && IsNumber(t) && |t| <= 63 && c.strtod(t).1 == |t| && StandsAt(content, p, t)
    requires p + |t| < |content|
    requires content[p + |t|] <= 0x20 || content[p + |t|] in [0x2C, 0x5D, 0x7D]
    ensures ParseValue(c, content, p, depth) == Parsed(Number(c.strtod(t).0), p + |t|)
  {
    hide IsNumber, ParseValue;
    NumbersAreTokens(c, t);
    NumberIsRead(c, content, p, t, depth);
  }

  lemma WordIsRead(c: NumberCodec, content: seq<Byte>, p: nat, s: Spelling, depth: nat)
    requires Terminated(content) && (s.NullWord? || s.FalseWord? || s.TrueWord?) && StandsAt(content, p, Text(c, s))
    ensures p < |content| && ParseValue(c, content, p, depth) == Parsed(Value(c, s), p + |Text(c, s)|)
  {
    StandsIndex(content, p, Text(c, s), 0);
    if StandsAt(content, p, NULL_TEXT) {
      StandsIndex(content, p, NULL_TEXT, 0);
    }
    if StandsAt(content, p, FALSE_TEXT) {
      StandsIndex(content, p, FALSE_TEXT, 0);
    }
  }

  lemma StringValueIsRead(c: NumberCodec, content: seq<Byte>, p: nat, units: seq<Unit>, depth: nat)
    requires Terminated(content) && ValidUnits(units) && StandsAt(content, p, StringText(units))
    ensures p < |content|
    ensures ParseValue(c, content, p, depth) == Parsed(String(CString(UnitsBytes(units))), p + |StringText(units)|)
  {
    StandsIndex(content, p, StringText(units), 0);
    hide StandsAt, ParseStringAt, StringText, UnitsBytes, CString;
    NoWord(content, p);
    StringIsRead(content, p, units);
  }

  /** No value starts with white space or a closing bracket or brace. */
  lemma FirstByte(c: NumberCodec, s: Spelling)
    requires Valid(c, s)
    ensures var t := Text(c, s); |t| > 0 && t[0] > 0x20 && t[0] != 0x5D && t[0] != 0x7D && t[0] < 0x80
  {
    hide ElementsText, EntriesText, ValidElement, ValidEntry, UnitsText;
  }

  /** A value that stands after white space, and the byte that follows it after more white space. */
  lemma {:induction false} PaddedValueIsRead(c: NumberCodec, content: seq<Byte>, p: nat, before: seq<Byte>, s: Spelling,
                                             after: seq<Byte>, sep: Byte, depth: nat)
    requires Terminated(content) && Valid(c, s) && Blank(before) && Blank(after) && depth <= 1000
    requires StandsAt(content, p, before + (Text(c, s) + (after + [sep]))) && sep in [0x2C, 0x5D, 0x7D]
    ensures var start, end := p + |before|, p + |before| + |Text(c, s)|;
            && start < end < |content| && SkipWhitespace(content, p) == start
            && content[start] > 0x20 && content[start] != 0x5D && content[start] != 0x7D
            && SkipWhitespace(content, end) == end + |after| < |content| && content[end + |after|] == sep
            && Reads(ParseValue(c, content, start, depth), Value(c, s), end, depth)
    decreases s, 3
  {
    hide StandsAt, ParseValue, SkipWhitespace, Text, Valid, Value, Reads;
    var t := Text(c, s);
    StandsSplit(content, p, before, t + (after + [sep]));
    StandsSplit(content, p + |before|, t, after + [sep]);
    AfterBlank(content, p + |before| + |t|, after, sep);
    FirstByte(c, s);
    StandsIndex(content, p + |before|, t, 0);
    BlankIsSkipped(content, p, before);
    ValueIsRead(c, content, p + |before|, s, depth);
  }

  /** Every spelling of a value is read as the value, exactly up to the nesting limit, and exactly its bytes are
      used. */
  lemma {:induction false} ValueIsRead(c: NumberCodec, content: seq<Byte>, p: nat, s: Spelling, depth: nat)
    requires Terminated(content) && Valid(c, s) && depth <= 1000 && StandsAt(content, p, Text(c, s))
    requires p + |Text(c, s)| < |content| && !InNumber(content[p + |Text(c, s)|])
    ensures p < |content| && Reads(ParseValue(c, content, p, depth), Value(c, s), p + |Text(c, s)|, depth)
    decreases s, 2
  {
    hide StandsAt, ParseValue, StringText, CString, IsToken, ElementsText, EntriesText, ValidElement, ValidEntry,
         ElementValues, EntryValues, NestingOfItems, NestingOfMembers, ValidUnits, UnitsBytes;
    match s
    case NumberToken(t) => NumberIsRead(c, content, p, t, depth);
    case StringUnits(units) => StringValueIsRead(c, content, p, units, depth);
    case ArrayOf(blank, elements) => ArrayIsRead(c, content, p, blank, elements, depth);
    case ObjectOf(blank, entries) => ObjectIsRead(c, content, p, blank, entries, depth);
    case _ => WordIsRead(c, content, p, s, depth);
  }

  // ----- Arrays -----

  lemma ArrayIsRead(c: NumberCodec, content: seq<Byte>, p: nat, blank: seq<Byte>, elements: seq<Element>, depth: nat)
    requires Terminated(content) && Valid(c, ArrayOf(blank, elements)) && depth <= 1000
    requires StandsAt(content, p, Text(c, ArrayOf(blank, elements)))
    ensures p < |content|
    ensures Reads(ParseValue(c, content, p, depth), Array(ElementValues(c, elements)),
                  p + |Text(c, ArrayOf(blank, elements))|, depth)
    decreases elements, 3
  {
    hide StandsAt, ParseValue, ParseItems, SkipWhitespace, ElementsText, ValidElement, ElementValues, NestingOfItems;
    ArrayNests(c, elements);
    var inner := if elements == [] then blank else ElementsText(c, elements);
    StandsSplit(content, p, [0x5B], inner + [0x5D]);
    LastByteStands(content, p, 0x5B);
    StandsSplit(content, p + 1, inner, [0x5D]);
    LastByteStands(content, p + 1 + |inner|, 0x5D);
    ParseArrayUnfold(c, content, p, depth);
    if elements == [] {
      AfterBlank(content, p + 1, blank, 0x5D);
    } else if depth < 1000 {
      ElementsAreRead(c, content, p + 1, elements, depth + 1);
      ItemsFromSkip(c, content, p + 1, depth + 1);
    }
  }

  lemma ArrayNests(c: NumberCodec, elements: seq<Element>)
    ensures Nesting(Array(ElementValues(c, elements))) == 1 + NestingOfItems(ElementValues(c, elements))
    ensures elements == [] ==> ElementValues(c, elements) == [] && NestingOfItems([]) == 0
  {}

  lemma ItemsFromSkip(c: NumberCodec, content: seq<Byte>, p: nat, depth: nat)
    requires Terminated(content) && p < |content|
    ensures ParseItems(c, content, SkipWhitespace(content, p), depth) == ParseItems(c, content, p, depth)
  {
    hide ParseValue, SkipWhitespace;
    SkippedIsSkipped(content, p);
  }

  lemma ElementValuesUnfold(c: NumberCodec, elements: seq<Element>)
    requires elements != []
    ensures var values, rest := ElementValues(c, elements), ElementValues(c, elements[1..]);
            && values == [Value(c, elements[0].value)] + rest
            && NestingOfItems(values) == Max(Nesting(Value(c, elements[0].value)), NestingOfItems(rest))
            && (|elements| == 1 ==> rest == [] && values == [Value(c, elements[0].value)] && NestingOfItems(rest) == 0)
  {
    hide Value, Nesting;
    assert ElementValues(c, elements)[1..] == ElementValues(c, elements[1..]);
  }

  /** The first element with its separator, and what stands after it. */
  lemma ElementStands(c: NumberCodec, content: seq<Byte>, p: nat, elements: seq<Element>)
    requires elements != [] && forall i :: 0 <= i < |elements| ==> ValidElement(c, elements[i])
    requires StandsAt(content, p, ElementsText(c, elements) + [0x5D])
    ensures var e, sep := elements[0], if |elements| == 1 then 0x5D else 0x2C;
            var q := p + |ElementText(c, e)|;
            && StandsAt(content, p, e.before + (Text(c, e.value) + (e.after + [sep])))
            && |ElementText(c, e)| == |e.before| + |Text(c, e.value)| + |e.after|
            && (|elements| == 1 ==> p + |ElementsText(c, elements)| == q)
            && (|elements| > 1 ==>
                  && StandsAt(content, q + 1, ElementsText(c, elements[1..]) + [0x5D])
                  && p + |ElementsText(c, elements)| == q + 1 + |ElementsText(c, elements[1..])|)
  {
    hide StandsAt, Text, Valid;
    var e, sep := elements[0], if |elements| == 1 then 0x5D else 0x2C;
    var first := e.before + (Text(c, e.value) + (e.after + [sep]));
    assert ElementText(c, e) + [sep] == first;
    hide ElementText, ValidElement;
    if |elements| > 1 {
      var rest := ElementsText(c, elements[1..]) + [0x5D];
      assert ElementsText(c, elements) + [0x5D] == first + rest;
      StandsSplit(content, p, first, rest);
    }
  }

  lemma {:induction false} ElementsAreRead(c: NumberCodec, content: seq<Byte>, p: nat, elements: seq<Element>,
                                           depth: nat)
    requires Terminated(content) && elements != [] && depth <= 1000
    requires forall i :: 0 <= i < |elements| ==> ValidElement(c, elements[i])
    requires StandsAt(content, p, ElementsText(c, elements) + [0x5D])
    ensures p < |content| && content[SkipWhitespace(content, p)] != 0x5D
    ensures var r := ParseItems(c, content, p, depth);
            if depth + NestingOfItems(ElementValues(c, elements)) <= 1000
            then r == Parsed(ElementValues(c, elements), p + |ElementsText(c, elements)| + 1) else r.Failed?
    decreases elements, 2
  {
    hide StandsAt, ParseValue, SkipWhitespace, Text, Valid, Value, ElementsText, ElementText, ParseItems, ElementValues,
         Nesting, NestingOfItems, Reads;
    var e, sep := elements[0], if |elements| == 1 then 0x5D else 0x2C;
    ElementStands(c, content, p, elements);
    ElementValuesUnfold(c, elements);
    var end := p + |e.before| + |Text(c, e.value)|;
    PaddedValueIsRead(c, content, p, e.before, e.value, e.after, sep, depth);
    FirstItem(c, content, p, Value(c, e.value), end, depth);
    if |elements| > 1 {
      ElementsAreRead(c, content, end + |e.after| + 1, elements[1..], depth);
    }
  }

  /** One turn of the parsing function for elements. */
  lemma FirstItem(c: NumberCodec, content: seq<Byte>, p: nat, j: Json, end: nat, depth: nat)
    requires Terminated(content) && p < |content| && end < |content|
    requires Reads(ParseValue(c, content, SkipWhitespace(content, p), depth), j, end, depth)
    ensures var r := ParseItems(c, content, p, depth);
            var q := SkipWhitespace(content, end);
            if depth + Nesting(j) > 1000 then r.Failed?
            else if content[q] == 0x5D then r == Parsed([j], q + 1)
            else content[q] == 0x2C && q + 1 < |content| ==>
                   var rest := ParseItems(c, content, q + 1, depth);
                   r == if rest.Parsed? then Parsed([j] + rest.value, rest.offset) else rest
  {
    hide ParseValue, SkipWhitespace, Nesting;
  }

  // ----- Objects -----

  lemma ObjectIsRead(c: NumberCodec, content: seq<Byte>, p: nat, blank: seq<Byte>, entries: seq<Entry>, depth: nat)
    requires Terminated(content) && Valid(c, ObjectOf(blank, entries)) && depth <= 1000
    requires StandsAt(content, p, Text(c, ObjectOf(blank, entries)))
    ensures p < |content|
    ensures Reads(ParseValue(c, content, p, depth), Object(EntryValues(c, entries)),
                  p + |Text(c, ObjectOf(blank, entries))|, depth)
    decreases entries, 4
  {
    hide StandsAt, ParseValue, ParseMembers, SkipWhitespace, EntriesText, ValidEntry, EntryValues, NestingOfMembers;
    ObjectNests(c, entries);
    var inner := if entries == [] then blank else EntriesText(c, entries);
    StandsSplit(content, p, [0x7B], inner + [0x7D]);
    LastByteStands(content, p, 0x7B);
    StandsSplit(content, p + 1, inner, [0x7D]);
    LastByteStands(content, p + 1 + |inner|, 0x7D);
    ParseObjectUnfold(c, content, p, depth);
    if entries == [] {
      AfterBlank(content, p + 1, blank, 0x7D);
    } else if depth < 1000 {
      EntriesAreRead(c, content, p + 1, entries, depth + 1);
      MembersFromSkip(c, content, p + 1, depth + 1);
    }
  }

  lemma ObjectNests(c: NumberCodec, entries: seq<Entry>)
    ensures Nesting(Object(EntryValues(c, entries))) == 1 + NestingOfMembers(EntryValues(c, entries))
    ensures entries == [] ==> EntryValues(c, entries) == [] && NestingOfMembers([]) == 0
  {}

  lemma MembersFromSkip(c: NumberCodec, content: seq<Byte>, p: nat, depth: nat)
    requires Terminated(content) && p < |content|
    ensures ParseMembers(c, content, SkipWhitespace(content, p), depth) == ParseMembers(c, content, p, depth)
  {
    hide ParseValue, ParseStringAt, SkipWhitespace;
    SkippedIsSkipped(content, p);
  }

  lemma EntryValuesUnfold(c: NumberCodec, entries: seq<Entry>)
    requires entries != []
    ensures var values, rest := EntryValues(c, entries), EntryValues(c, entries[1..]);
            && values == [EntryValue(c, entries[0])] + rest
            && NestingOfMembers(values) == Max(Nesting(EntryValue(c, entries[0]).value), NestingOfMembers(rest))
            && (|entries| == 1 ==> rest == [] && values == [EntryValue(c, entries[0])] && NestingOfMembers(rest) == 0)
  {
    hide EntryValue, Nesting;
    assert EntryValues(c, entries)[1..] == EntryValues(c, entries[1..]);
  }

  lemma EntryStands(c: NumberCodec, content: seq<Byte>, p: nat, entries: seq<Entry>)
    requires entries != [] && forall i :: 0 <= i < |entries| ==> ValidEntry(c, entries[i])
    requires StandsAt(content, p, EntriesText(c, entries) + [0x7D])
    ensures var e, sep := entries[0], if |entries| == 1 then 0x7D else 0x2C;
            var q := p + |EntryText(c, e)|;
            && StandsAt(content, p, EntryText(c, e) + [sep]) && |e.after| <= |EntryText(c, e)|
            && (|entries| == 1 ==> p + |EntriesText(c, entries)| == q)
            && (|entries| > 1 ==>
                  && StandsAt(content, q + 1, EntriesText(c, entries[1..]) + [0x7D])
                  && p + |EntriesText(c, entries)| == q + 1 + |EntriesText(c, entries[1..])|)
  {
    hide StandsAt, EntryText, ValidEntry;
    var e, sep := entries[0], if |entries| == 1 then 0x7D else 0x2C;
    if |entries| > 1 {
      var first, rest := EntryText(c, e) + [sep], EntriesText(c, entries[1..]) + [0x7D];
      assert EntriesText(c, entries) + [0x7D] == first + rest;
      StandsSplit(content, p, first, rest);
    }
  }

  lemma StringStart(units: seq<Unit>)
    requires ValidUnits(units)
    ensures |StringText(units)| > 0 && StringText(units)[0] == 0x22
  {}

  /** The part of a member before its value. */
  lemma EntryStart(content: seq<Byte>, p: nat, e: Entry, rest: seq<Byte>)
    requires Blank(e.before) && ValidUnits(e.key) && Blank(e.beforeColon)
    requires StandsAt(content, p, e.before + (StringText(e.key) + (e.beforeColon + ([0x3A] + rest))))
    ensures var key := p + |e.before|;
            var afterKey := key + |StringText(e.key)|;
            var colon := afterKey + |e.beforeColon|;
            && colon < |content| && content[key] == 0x22 && SkipWhitespace(content, p) == key
            && ParseStringAt(content, key) == Parsed(CString(UnitsBytes(e.key)), afterKey)
            && SkipWhitespace(content, afterKey) == colon && content[colon] == 0x3A
            && StandsAt(content, colon + 1, rest)
  {
    hide StandsAt, ParseStringAt, SkipWhitespace, StringText, UnitsBytes, CString, ValidUnit;
    var key := p + |e.before|;
    var s := StringText(e.key);
    var afterKey := key + |s|;
    var colon := afterKey + |e.beforeColon|;
    StringStart(e.key);
    StandsSplit(content, p, e.before, s + (e.beforeColon + ([0x3A] + rest)));
    StandsSplit(content, key, s, e.beforeColon + ([0x3A] + rest));
    StandsSplit(content, afterKey, e.beforeColon, [0x3A] + rest);
    StandsSplit(content, colon, [0x3A], rest);
    LastByteStands(content, colon, 0x3A);
    StandsIndex(content, key, s, 0);
    BlankIsSkipped(content, p, e.before);
    StringIsRead(content, key, e.key);
    BlankIsSkipped(content, afterKey, e.beforeColon);
  }

  lemma {:induction false} EntryIsRead(c: NumberCodec, content: seq<Byte>, p: nat, e: Entry, sep: Byte, depth: nat)
    requires Terminated(content) && ValidEntry(c, e) && depth <= 1000
    requires StandsAt(content, p, EntryText(c, e) + [sep]) && sep in [0x2C, 0x7D]
    ensures p < |content| && content[SkipWhitespace(content, p)] == 0x22
    ensures |e.after| <= |EntryText(c, e)|
    ensures var r, q, end := ParseMember(c, content, p, depth), p + |EntryText(c, e)|, p + |EntryText(c,
            e)| - |e.after|;
            && end < |content| && SkipWhitespace(content, end) == q < |content| && content[q] == sep
            && if depth + Nesting(EntryValue(c, e).value) <= 1000 then r == Parsed(EntryValue(c, e), end) else r.Failed?
    decreases e, 4
  {
    hide StandsAt, ParseValue, SkipWhitespace, Text, Valid, Value, ParseStringAt, StringText, UnitsBytes, CString,
         Nesting;
    var t := Text(c, e.value);
    assert EntryText(c, e) + [sep]
        == e.before + (StringText(e.key) + (e.beforeColon + ([0x3A] + (e.afterColon + (t + (e.after + [sep]))))));
    EntryStart(content, p, e, e.afterColon + (t + (e.after + [sep])));
    var colon := p + |e.before| + |StringText(e.key)| + |e.beforeColon|;
    PaddedValueIsRead(c, content, colon + 1, e.afterColon, e.value, e.after, sep, depth);
  }

  lemma {:induction false} EntriesAreRead(c: NumberCodec, content: seq<Byte>, p: nat, entries: seq<Entry>, depth: nat)
    requires Terminated(content) && entries != [] && depth <= 1000
    requires forall i :: 0 <= i < |entries| ==> ValidEntry(c, entries[i])
    requires StandsAt(content, p, EntriesText(c, entries) + [0x7D])
    ensures p < |content| && content[SkipWhitespace(content, p)] != 0x7D
    ensures var r := ParseMembers(c, content, p, depth);
            if depth + NestingOfMembers(EntryValues(c, entries)) <= 1000
            then r == Parsed(EntryValues(c, entries), p + |EntriesText(c, entries)| + 1) else r.Failed?
    decreases entries, 3
  {
    hide StandsAt, ParseMember, ParseMembers, SkipWhitespace, EntryText, EntriesText, ValidEntry, EntryValue,
            EntryValues,
         Nesting, NestingOfMembers;
    var e, sep := entries[0], if |entries| == 1 then 0x7D else 0x2C;
    EntryStands(c, content, p, entries);
    EntryValuesUnfold(c, entries);
    var q := p + |EntryText(c, e)|;
    EntryIsRead(c, content, p, e, sep, depth);
    FirstMember(c, content, p, EntryValue(c, e), q - |e.after|, depth);
    if |entries| > 1 {
      EntriesAreRead(c, content, q + 1, entries[1..], depth);
    }
  }

  lemma FirstMember(c: NumberCodec, content: seq<Byte>, p: nat, m: Member, end: nat, depth: nat)
    requires Terminated(content) && p < |content| && end < |content|
    requires var r := ParseMember(c, content, p, depth);
             if depth + Nesting(m.value) <= 1000 then r == Parsed(m, end) else r.Failed?
    ensures var r := ParseMembers(c, content, p, depth);
            var q := SkipWhitespace(content, end);
            if depth + Nesting(m.value) > 1000 then r.Failed?
            else if content[q] == 0x7D then r == Parsed([m], q + 1)
            else content[q] == 0x2C && q + 1 < |content| ==>
                   var rest := ParseMembers(c, content, q + 1, depth);
                   r == if rest.Parsed? then Parsed([m] + rest.value, rest.offset) else rest
  {
    hide ParseMember, SkipWhitespace, Nesting;
  }

  // ----- Whole texts -----

  /** Every JSON text, white space around it included, is read as its value, and to its end if that is required, if
      and only if it is nested at most 1000 deep. */
  lemma TextIsRead(c: NumberCodec, before: seq<Byte>, s: Spelling, after: seq<Byte>, requireTerminated: bool)
    requires Valid(c, s) && Blank(before) && Blank(after)
    ensures var text := before + Text(c, s) + after;
            var r := ParseText(c, text, requireTerminated);
            if Nesting(Value(c, s)) <= 1000
            then r == Parsed(Value(c, s), if requireTerminated then |text| else |before + Text(c, s)|) else r.Failed?
  {
    hide ParseValue, Text, Valid, Value, Nesting, StandsAt, SkipWhitespace, SkipBom, InNumber;
    var t := Text(c, s);
    var text := before + t + after;
    var content := text + [0];
    FirstByte(c, s);
    Parts(content, before, t, after);
    NoBom(content, before, t);
    var start, end := |before|, |before| + |t|;
    StandsIndex(content, start, t, 0);
    BlankIsSkipped(content, 0, before);
    ValueIsRead(c, content, start, s, 0);
    TrailingBlank(content, end, after);
  }

  lemma Parts(content: seq<Byte>, before: seq<Byte>, t: seq<Byte>, after: seq<Byte>)
    requires content == before + t + after + [0] && Blank(after)
    ensures StandsAt(content, 0, before) && StandsAt(content, |before|, t) && StandsAt(content, |before| + |t|, after)
    ensures content[|before| + |t|] <= 0x20 && !InNumber(content[|before| + |t|])
  {
    assert content[0..|before|] == before && content[|before|..|before| + |t|] == t;
    assert content[|before| + |t|..|before| + |t| + |after|] == after;
    assert content[|before| + |t|] == (after + [0])[0];
  }

  /** White space up to the NUL at the end. */
  lemma {:induction false} TrailingBlank(content: seq<Byte>, p: nat, ws: seq<Byte>)
    requires Blank(ws) && StandsAt(content, p, ws) && p + |ws| == |content| - 1 && content[|content| - 1] == 0
    ensures SkipWhitespace(content, p) == |content| - 1
    decreases |ws|
  {
    if ws != [] {
      StandsIndex(content, p, ws, 0);
      assert [ws[0]] + ws[1..] == ws;
      StandsSplit(content, p, [ws[0]], ws[1..]);
      TrailingBlank(content, p + 1, ws[1..]);
    }
  }

  lemma NoBom(content: seq<Byte>, before: seq<Byte>, t: seq<Byte>)
    requires Blank(before) && StandsAt(content, 0, before) && StandsAt(content, |before|, t) && |t| > 0 && t[0] < 0x80
    ensures SkipBom(content) == 0
  {
    if before == [] {
      StandsIndex(content, 0, t, 0);
    } else {
      StandsIndex(content, 0, before, 0);
    }
    if StandsAt(content, 0, [0xEF, 0xBB, 0xBF]) {
      StandsIndex(content, 0, [0xEF, 0xBB, 0xBF], 0);
    }
  }
}
