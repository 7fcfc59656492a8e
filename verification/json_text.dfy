/** JSON values, the text fern/cJSON.c prints for them, and what it reads back from a text. */
module JsonText {
  import opened Bits
  import opened JsonStrings

  datatype Json =
    | Null
    | False
    | True
    | Number(value: real)
    | String(text: seq<Byte>)
    | Array(items: seq<Json>)
    | Object(members: seq<Member>)

  datatype Member = Member(name: seq<Byte>, value: Json)

  /** The C library's number formatting and `strtod`: a value and how many bytes it used, none on failure. */
  datatype Codec = Codec(render: real -> seq<Byte>, strtod: seq<Byte> -> (real, nat))

  type NumberCodec = c: Codec | forall s :: c.strtod(s).1 <= |s|
    witness Codec((n: real) => [], (s: seq<Byte>) => (0.0, 0))

  /** Strings and keys are C strings: no NUL inside. */
  predicate CStrings(j: Json) {
    match j
    case String(s) => 0 !in s
    case Array(items) => forall i :: 0 <= i < |items| ==> CStrings(items[i])
    case Object(members) => forall i :: 0 <= i < |members| ==> MemberCStrings(members[i])
    case _ => true
  }

  predicate MemberCStrings(m: Member) {
    0 !in m.name && CStrings(m.value)
  }

  function Max(a: nat, b: nat): nat {
    if a < b then b else a
  }

  /** How many arrays and objects stand around the innermost value. */
  function Nesting(j: Json): nat
    decreases j, 0
  {
    match j
    case Array(items) => 1 + NestingOfItems(items)
    case Object(members) => 1 + NestingOfMembers(members)
    case _ => 0
  }

  function NestingOfItems(items: seq<Json>): nat
    decreases items, 1
  {
    if items == [] then 0 else Max(Nesting(items[0]), NestingOfItems(items[1..]))
  }

  function NestingOfMembers(members: seq<Member>): nat
    decreases members, 1
  {
    if members == [] then 0 else Max(Nesting(members[0].value), NestingOfMembers(members[1..]))
  }

  const CJSON_NESTING_LIMIT: nat := 1000
  const NUMBER_BUFFER_SIZE: nat := 26

  const TAB: Byte := 0x09
  const NEWLINE: Byte := 0x0A
  const SPACE: Byte := 0x20
  const COMMA: Byte := 0x2C
  const MINUS: Byte := 0x2D
  const COLON: Byte := 0x3A
  const OPEN_BRACKET: Byte := 0x5B
  const CLOSE_BRACKET: Byte := 0x5D
  const OPEN_BRACE: Byte := 0x7B
  const CLOSE_BRACE: Byte := 0x7D

  const NULL_TEXT: seq<Byte> := [0x6E, 0x75, 0x6C, 0x6C]
  const TRUE_TEXT: seq<Byte> := [0x74, 0x72, 0x75, 0x65]
  const FALSE_TEXT: seq<Byte> := [0x66, 0x61, 0x6C, 0x73, 0x65]

  // ----- Printing -----

  function Tabs(n: nat): (s: seq<Byte>)
    ensures |s| == n
  {
    if n == 0 then [] else [TAB] + Tabs(n - 1)
  }

  /** Text that only formatted printing adds. */
  function If(format: bool, s: seq<Byte>): seq<Byte> {
    if format then s else []
  }

  function ItemSeparator(format: bool): seq<Byte> {
    [COMMA] + If(format, [SPACE])
  }

  /** The text of a value that stands `depth` levels deep. */
  function PrintValue(c: NumberCodec, j: Json, format: bool, depth: nat): seq<Byte>
    decreases j, 0
  {
    match j
    case Null => NULL_TEXT
    case False => FALSE_TEXT
    case True => TRUE_TEXT
    case Number(n) => c.render(n)
    case String(s) => Literal(s)
    case Array(items) => [OPEN_BRACKET] + PrintItems(c, items, format, depth + 1) + [CLOSE_BRACKET]
    case Object(members) =>
      [OPEN_BRACE] + If(format, [NEWLINE]) + PrintMembers(c, members, format, depth + 1)
      + If(format, Tabs(depth)) + [CLOSE_BRACE]
  }

  function PrintItems(c: NumberCodec, items: seq<Json>, format: bool, depth: nat): seq<Byte>
    decreases items, 1
  {
    if items == [] then []
    else PrintValue(c, items[0], format, depth)
         + (if |items| > 1 then ItemSeparator(format) else [])
         + PrintItems(c, items[1..], format, depth)
  }

  /** Indentation, key, colon, value, comma unless last, line end. */
  function PrintMember(c: NumberCodec, m: Member, last: bool, format: bool, depth: nat): seq<Byte>
    decreases m, 1
  {
    If(format, Tabs(depth)) + Literal(m.name) + [COLON] + If(format, [TAB])
    + PrintValue(c, m.value, format, depth) + If(!last, [COMMA]) + If(format, [NEWLINE])
  }

  function PrintMembers(c: NumberCodec, members: seq<Member>, format: bool, depth: nat): seq<Byte>
    decreases members, 2
  {
    if members == [] then []
    else PrintMember(c, members[0], |members| == 1, format, depth) + PrintMembers(c, members[1..], format, depth)
  }

  // ----- Parsing -----

  /** A parse buffer holds a C string and the NUL that ends it. */
  predicate Terminated(content: seq<Byte>) {
    |content| > 0 && content[|content| - 1] == 0
  }

  /** The first byte from `p` on that is not white space, or the terminating NUL. */
  function SkipWhitespace(content: seq<Byte>, p: nat): (q: nat)
    requires p < |content|
    ensures p <= q < |content|
    decreases |content| - p
  {
    if content[p] <= 0x20 && p + 1 < |content| then SkipWhitespace(content, p + 1) else p
  }

  predicate IsNumberByte(b: Byte) {
    0x30 <= b <= 0x39 || b == 0x2B || b == MINUS || b == 0x65 || b == 0x45 || b == 0x2E
  }

  /** The end of the run of number bytes from `p`, of which at most `room` are taken. */
  function NumberRunEnd(content: seq<Byte>, p: nat, room: nat): (q: nat)
    requires p <= |content|
    ensures p <= q <= |content| && q <= p + room
    decreases room
  {
    if room > 0 && p < |content| && IsNumberByte(content[p]) then NumberRunEnd(content, p + 1, room - 1) else p
  }

  function ParseNumber(c: NumberCodec, content: seq<Byte>, offset: nat): Parsed<Json>
    requires offset < |content|
  {
    var run := content[offset..NumberRunEnd(content, offset, 63)];
    var (value, length) := c.strtod(run);
    if length == 0 then Failed(offset) else Parsed(Number(value), offset + length)
  }

  predicate StartsNumber(b: Byte) {
    b == MINUS || 0x30 <= b <= 0x39
  }

  /** `parse_value` at `offset`, already nested `depth` deep. */
  function ParseValue(c: NumberCodec, content: seq<Byte>, offset: nat, depth: nat): (r: Parsed<Json>)
    requires Terminated(content) && offset < |content|
    ensures r.Parsed? ==> offset < r.offset < |content|
    decreases |content| - offset, 0
  {
    if StandsAt(content, offset, NULL_TEXT) then AfterWord(content, offset, NULL_TEXT, Null)
    else if StandsAt(content, offset, FALSE_TEXT) then AfterWord(content, offset, FALSE_TEXT, False)
    else if StandsAt(content, offset, TRUE_TEXT) then AfterWord(content, offset, TRUE_TEXT, True)
    else if content[offset] == QUOTE then
      ParsedInside(content, offset);
      var s := ParseStringAt(content, offset);
      if s.Parsed? then Parsed(String(s.value), s.offset) else Failed(s.offset)
    else if StartsNumber(content[offset]) then
      NumberInside(c, content, offset);
      ParseNumber(c, content, offset)
    else if content[offset] == OPEN_BRACKET then
      if depth >= CJSON_NESTING_LIMIT then Failed(offset)
      else
        var p := SkipWhitespace(content, offset + 1);
        if content[p] == CLOSE_BRACKET then Parsed(Array([]), p + 1)
        else
          var items := ParseItems(c, content, p, depth + 1);
          if items.Parsed? then Parsed(Array(items.value), items.offset) else Failed(items.offset)
    else if content[offset] == OPEN_BRACE then
      if depth >= CJSON_NESTING_LIMIT then Failed(offset)
      else
        var p := SkipWhitespace(content, offset + 1);
        if content[p] == CLOSE_BRACE then Parsed(Object([]), p + 1)
        else
          var members := ParseMembers(c, content, p, depth + 1);
          if members.Parsed? then Parsed(Object(members.value), members.offset) else Failed(members.offset)
    else Failed(offset)
  }

  /** The word is nonempty and has no NUL, so it ends before the terminator. */
  function AfterWord(content: seq<Byte>, offset: nat, word: seq<Byte>, j: Json): (r: Parsed<Json>)
    requires Terminated(content) && StandsAt(content, offset, word)
    requires |word| > 0 && word[|word| - 1] != 0
    ensures r == Parsed(j, offset + |word|) && offset < r.offset < |content|
  {
    StandsIndex(content, offset, word, |word| - 1);
    Parsed(j, offset + |word|)
  }

  /** The elements of an array and its closing bracket, from the first byte of an element. */
  function ParseItems(c: NumberCodec, content: seq<Byte>, p: nat, depth: nat): (r: Parsed<seq<Json>>)
    requires Terminated(content) && p < |content|
    ensures r.Parsed? ==> p < r.offset < |content|
    decreases |content| - p, 1
  {
    var first := ParseValue(c, content, SkipWhitespace(content, p), depth);
    if first.Failed? then Failed(first.offset)
    else
      var q := SkipWhitespace(content, first.offset);
      if content[q] == COMMA then
        var rest := ParseItems(c, content, q + 1, depth);
        if rest.Parsed? then Parsed([first.value] + rest.value, rest.offset) else rest
      else if content[q] == CLOSE_BRACKET then Parsed([first.value], q + 1)
      else Failed(q)
  }

  /** One key, colon and value. */
  function ParseMember(c: NumberCodec, content: seq<Byte>, p: nat, depth: nat): (r: Parsed<Member>)
    requires Terminated(content) && p < |content|
    ensures r.Parsed? ==> p < r.offset < |content|
    decreases |content| - p, 1
  {
    var start := SkipWhitespace(content, p);
    ParsedInside(content, start);
    var name := ParseStringAt(content, start);
    if name.Failed? then Failed(name.offset)
    else
      var q := SkipWhitespace(content, name.offset);
      if content[q] != COLON then Failed(q)
      else
        var value := ParseValue(c, content, SkipWhitespace(content, q + 1), depth);
        if value.Parsed? then Parsed(Member(name.value, value.value), value.offset) else Failed(value.offset)
  }

  function ParseMembers(c: NumberCodec, content: seq<Byte>, p: nat, depth: nat): (r: Parsed<seq<Member>>)
    requires Terminated(content) && p < |content|
    ensures r.Parsed? ==> p < r.offset < |content|
    decreases |content| - p, 2
  {
    var first := ParseMember(c, content, p, depth);
    if first.Failed? then Failed(first.offset)
    else
      var q := SkipWhitespace(content, first.offset);
      if content[q] == COMMA then
        var rest := ParseMembers(c, content, q + 1, depth);
        if rest.Parsed? then Parsed([first.value] + rest.value, rest.offset) else rest
      else if content[q] == CLOSE_BRACE then Parsed([first.value], q + 1)
      else Failed(q)
  }

  /** A string that is read ends before the terminator, which is no quote. */
  lemma ParsedInside(content: seq<Byte>, offset: nat)
    requires Terminated(content) && offset < |content|
    ensures var s := ParseStringAt(content, offset); s.Parsed? ==> offset < s.offset < |content|
  {}

  lemma {:induction false} NumberRunInside(content: seq<Byte>, p: nat, room: nat)
    requires Terminated(content) && p < |content|
    ensures NumberRunEnd(content, p, room) < |content|
    decreases room
  {
    if room > 0 && IsNumberByte(content[p]) {
      NumberRunInside(content, p + 1, room - 1);
    }
  }

  lemma NumberInside(c: NumberCodec, content: seq<Byte>, offset: nat)
    requires Terminated(content) && offset < |content|
    ensures var r := ParseNumber(c, content, offset); r.Parsed? ==> offset < r.offset < |content|
  {
    NumberRunInside(content, offset, 63);
  }

  /** None of the three words stands at a byte that is the first of none. */
  lemma NoWord(content: seq<Byte>, p: nat)
    requires p < |content| && content[p] !in {0x6E, 0x74, 0x66}
    ensures !StandsAt(content, p, NULL_TEXT) && !StandsAt(content, p, TRUE_TEXT) && !StandsAt(content, p, FALSE_TEXT)
  {
    if StandsAt(content, p, NULL_TEXT) {
      StandsIndex(content, p, NULL_TEXT, 0);
    }
    if StandsAt(content, p, TRUE_TEXT) {
      StandsIndex(content, p, TRUE_TEXT, 0);
    }
    if StandsAt(content, p, FALSE_TEXT) {
      StandsIndex(content, p, FALSE_TEXT, 0);
    }
  }

  /** `parse_value` at an opening bracket. */
  lemma ParseArrayUnfold(c: NumberCodec, content: seq<Byte>, p: nat, depth: nat)
    requires Terminated(content) && p + 1 < |content| && content[p] == OPEN_BRACKET
    ensures var r := ParseValue(c, content, p, depth);
            var q := SkipWhitespace(content, p + 1);
            if depth >= CJSON_NESTING_LIMIT then r == Failed(p)
            else if content[q] == CLOSE_BRACKET then r == Parsed(Array([]), q + 1)
            else var items := ParseItems(c, content, q, depth + 1);
              r == if items.Parsed? then Parsed(Array(items.value), items.offset) else Failed(items.offset)
  {
    hide StandsAt, SkipWhitespace, ParseItems, ParseMembers, ParseStringAt, ParseNumber;
    NoWord(content, p);
  }

  /** `parse_value` at an opening brace. */
  lemma ParseObjectUnfold(c: NumberCodec, content: seq<Byte>, p: nat, depth: nat)
    requires Terminated(content) && p + 1 < |content| && content[p] == OPEN_BRACE
    ensures var r := ParseValue(c, content, p, depth);
            var q := SkipWhitespace(content, p + 1);
            if depth >= CJSON_NESTING_LIMIT then r == Failed(p)
            else if content[q] == CLOSE_BRACE then r == Parsed(Object([]), q + 1)
            else var members := ParseMembers(c, content, q, depth + 1);
              r == if members.Parsed? then Parsed(Object(members.value), members.offset) else Failed(members.offset)
  {
    hide StandsAt, SkipWhitespace, ParseItems, ParseMembers, ParseStringAt, ParseNumber;
    NoWord(content, p);
  }

  /** The byte order mark of UTF-8, if at least two more bytes follow it. */
  function SkipBom(content: seq<Byte>): nat {
    if |content| > 4 && StandsAt(content, 0, [0xEF, 0xBB, 0xBF]) then 3 else 0
  }

  /** `cJSON_ParseWithOpts`: where the text went wrong, or the value and the end of what was read. */
  function ParseText(c: NumberCodec, text: seq<Byte>, requireTerminated: bool): Parsed<Json> {
    var content := text + [0];
    var r := ParseValue(c, content, SkipWhitespace(content, SkipBom(content)), 0);
    if r.Failed? || !requireTerminated then r
    else
      var q := SkipWhitespace(content, r.offset);
      if content[q] == 0 then Parsed(r.value, q) else Failed(q)
  }
}
