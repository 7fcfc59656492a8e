/** Printing a tree and parsing the text gives the tree back, exactly up to the nesting limit. */
module JsonRoundTrip {
  import opened Bits
  import opened JsonGrammar
  import opened JsonStringGrammar
  import opened JsonStrings
  import opened JsonText

  // ----- Which trees -----

  /** The C library prints the number as a short token that `strtod` reads back whole, to the same number. */
  predicate ReadsBack(c: NumberCodec, n: real) {
    |c.render(n)| <= 25 && IsToken(c, c.render(n)) && c.strtod(c.render(n)).0 == n
  }

  /** Strings and keys are C strings, and every number is one that reads back. */
  predicate WellFormed(c: NumberCodec, j: Json) {
    match j
    case Number(n) => ReadsBack(c, n)
    case String(s) => 0 !in s
    case Array(items) => forall i :: 0 <= i < |items| ==> WellFormed(c, items[i])
    case Object(members) => forall i :: 0 <= i < |members| ==> WellFormedMember(c, members[i])
    case _ => true
  }

  predicate WellFormedMember(c: NumberCodec, m: Member) {
    0 !in m.name && WellFormed(c, m.value)
  }

  // ----- How the printer spells a tree -----

  /** A line feed and tabs, in formatted text. */
  function NewLine(format: bool, depth: nat): (s: seq<Byte>)
    ensures Blank(s)
  {
    if format then [0x0A] + seq(depth, i => 0x09) else []
  }

  /** Unformatted text has no white space. Formatted, elements are separated by a space, and members stand on lines of
      their own, indented by tabs, with a tab after the colon. */
  function Spell(c: NumberCodec, j: Json, format: bool, depth: nat): (s: Spelling)
    requires WellFormed(c, j)
    decreases j, 0
  {
    match j
    case Null => NullWord
    case False => FalseWord
    case True => TrueWord
    case Number(n) => NumberToken(c.render(n))
    case String(s) => StringUnits(SpellBytes(s))
    case Array(items) => ArrayOf([], SpellItems(c, items, [], format, depth + 1))
    case Object(members) =>
      ObjectOf(NewLine(format, depth), SpellMembers(c, members, format, depth + 1))
  }

  function SpellItems(c: NumberCodec, items: seq<Json>, before: seq<Byte>, format: bool, depth: nat)
    : (r: seq<Element>)
    requires forall i :: 0 <= i < |items| ==> WellFormed(c, items[i])
    ensures |r| == |items|
    decreases items, 1
  {
    if items == [] then []
    else [Element(before, Spell(c, items[0], format, depth), [])]
         + SpellItems(c, items[1..], if format then [0x20] else [], format, depth)
  }

  function SpellMembers(c: NumberCodec, members: seq<Member>, format: bool, depth: nat): (r: seq<Entry>)
    requires depth > 0 && forall i :: 0 <= i < |members| ==> WellFormedMember(c, members[i])
    ensures |r| == |members|
    decreases members, 2
  {
    if members == [] then []
    else [SpellMember(c, members[0], |members| == 1, format, depth)] + SpellMembers(c, members[1..], format, depth)
  }

  function SpellMember(c: NumberCodec, m: Member, last: bool, format: bool, depth: nat): Entry
    requires depth > 0 && WellFormedMember(c, m)
    decreases m, 1
  {
    Entry(NewLine(format, depth), SpellBytes(m.name), [], if format then [0x09] else [],
          Spell(c, m.value, format, depth), if last then NewLine(format, depth - 1) else [])
  }

  // ----- It spells the tree, and its bytes are what the printer prints -----

  lemma {:induction false} TabsAre(n: nat)
    ensures Tabs(n) == seq(n, i => 0x09)
  {
    if n > 0 {
      TabsAre(n - 1);
    }
  }

  lemma NewLineIs(format: bool, depth: nat)
    ensures NewLine(format, depth) == If(format, [NEWLINE]) + If(format, Tabs(depth))
  {
    TabsAre(depth);
  }

  /** The spelling is one of the value, and its bytes are `t`. */
  ghost predicate Spells(c: NumberCodec, s: Spelling, j: Json, t: seq<Byte>) {
    Valid(c, s) && Value(c, s) == j && Text(c, s) == t
  }

  /** The text of a tree is a JSON text that spells it, laid out as said. */
  lemma {:induction false} PrintedIsSpelled(c: NumberCodec, j: Json, format: bool, depth: nat)
    requires WellFormed(c, j)
    ensures Spells(c, Spell(c, j, format, depth), j, PrintValue(c, j, format, depth))
    decreases j, 0
  {
    hide Spells, Spell, PrintValue, WellFormedMember;
    match j
    case Array(items) => ArrayIsSpelled(c, items, format, depth);
    case Object(members) => ObjectIsSpelled(c, members, format, depth);
    case _ => LeafIsSpelled(c, j, format, depth);
  }

  lemma LeafIsSpelled(c: NumberCodec, j: Json, format: bool, depth: nat)
    requires WellFormed(c, j) && !j.Array? && !j.Object?
    ensures Spells(c, Spell(c, j, format, depth), j, PrintValue(c, j, format, depth))
  {
    hide Literal, StringText, SpellBytes, IsToken, UnitsBytes, CString, ValidUnit;
    if j.String? {
      LiteralIsSpelled(j.text);
    }
  }

  lemma ArrayIsSpelled(c: NumberCodec, items: seq<Json>, format: bool, depth: nat)
    requires WellFormed(c, Array(items))
    ensures Spells(c, Spell(c, Array(items), format, depth), Array(items), PrintValue(c, Array(items), format, depth))
    decreases items, 2
  {
    var r := SpellItems(c, items, [], format, depth + 1);
    assert Spell(c, Array(items), format, depth) == ArrayOf([], r);
    hide Spell, SpellItems, PrintItems, ElementValues, ElementsText, ValidElement, WellFormedMember;
    NoItems(c, format, depth + 1);
    if items != [] {
      ItemsAreSpelled(c, items, [], format, depth + 1);
      NothingBefore(PrintItems(c, items, format, depth + 1));
    }
    AssembleArray(c, r);
    hide Valid, Value, Text, WellFormed;
  }

  lemma AssembleArray(c: NumberCodec, r: seq<Element>)
    requires forall i :: 0 <= i < |r| ==> ValidElement(c, r[i])
    ensures Valid(c, ArrayOf([], r)) && Value(c, ArrayOf([], r)) == Array(ElementValues(c, r))
    ensures Text(c, ArrayOf([], r)) == [0x5B] + (if r == [] then [] else ElementsText(c, r)) + [0x5D]
  {
    hide ValidElement, ElementValues, ElementsText;
  }

  lemma ObjectIsSpelled(c: NumberCodec, members: seq<Member>, format: bool, depth: nat)
    requires WellFormed(c, Object(members))
    ensures Spells(c, Spell(c, Object(members), format, depth), Object(members),
                   PrintValue(c, Object(members), format, depth))
    decreases members, 3
  {
    var r := SpellMembers(c, members, format, depth + 1);
    assert Spell(c, Object(members), format, depth) == ObjectOf(NewLine(format, depth), r);
    hide Spell, SpellMembers, PrintMembers, EntryValues, EntriesText, ValidEntry, WellFormedMember, NewLine, Tabs;
    NewLineIs(format, depth);
    NoMembers(c, format, depth + 1);
    if members != [] {
      MembersAreSpelled(c, members, format, depth + 1);
    }
    AssembleObject(c, NewLine(format, depth), r);
    RegroupObject(If(format, [NEWLINE]), PrintMembers(c, members, format, depth + 1), If(format, Tabs(depth)));
  }

  lemma AssembleObject(c: NumberCodec, blank: seq<Byte>, r: seq<Entry>)
    requires Blank(blank) && forall i :: 0 <= i < |r| ==> ValidEntry(c, r[i])
    ensures Valid(c, ObjectOf(blank, r)) && Value(c, ObjectOf(blank, r)) == Object(EntryValues(c, r))
    ensures Text(c, ObjectOf(blank, r)) == [0x7B] + (if r == [] then blank else EntriesText(c, r)) + [0x7D]
  {
    hide ValidEntry, EntryValues, EntriesText;
  }

  lemma Regroup(a: seq<Byte>, t: seq<Byte>, comma: seq<Byte>, blank: seq<Byte>, rest: seq<Byte>)
    ensures a + (t + []) + (comma + (blank + rest)) == a + (t + (comma + blank) + rest)
  {}

  lemma NothingAdded(a: seq<Byte>, t: seq<Byte>)
    ensures a + (t + []) == a + (t + [] + []) == a + t
  {}

  lemma NothingBefore(t: seq<Byte>)
    ensures [] + t == t
  {}

  lemma RegroupMembers(head: seq<Byte>, newline: seq<Byte>, text: seq<Byte>, rest: seq<Byte>, close: seq<Byte>)
    ensures head + [0x2C] + newline == newline + text ==>
              head + ([0x2C] + (newline + rest + close)) == newline + (text + rest) + close
  {
    if head + [0x2C] + newline == newline + text {
      assert head + ([0x2C] + (newline + rest + close)) == (head + [0x2C] + newline) + rest + close;
    }
  }

  lemma RegroupObject(newline: seq<Byte>, inner: seq<Byte>, tabs: seq<Byte>)
    ensures [0x7B] + (newline + tabs) + [0x7D] == [0x7B] + newline + [] + tabs + [0x7D]
    ensures [0x7B] + (newline + inner + tabs) + [0x7D] == [0x7B] + newline + inner + tabs + [0x7D]
  {}

  lemma NoItems(c: NumberCodec, format: bool, depth: nat)
    ensures SpellItems(c, [], [], format, depth) == [] && PrintItems(c, [], format, depth) == []
    ensures ElementValues(c, []) == []
  {}

  lemma NoMembers(c: NumberCodec, format: bool, depth: nat)
    requires depth > 0
    ensures SpellMembers(c, [], format, depth) == [] && PrintMembers(c, [], format, depth) == []
    ensures EntryValues(c, []) == []
  {}

  lemma {:induction false} ItemsAreSpelled(c: NumberCodec, items: seq<Json>, before: seq<Byte>, format: bool,
                                           depth: nat)
    requires items != [] && Blank(before) && forall i :: 0 <= i < |items| ==> WellFormed(c, items[i])
    ensures var r := SpellItems(c, items, before, format, depth);
            && (forall i :: 0 <= i < |r| ==> ValidElement(c, r[i])) && ElementValues(c, r) == items
            && ElementsText(c, r) == before + PrintItems(c, items, format, depth)
    decreases items, 1
  {
    hide Spell, Valid, Value, WellFormed, PrintValue, Text, WellFormedMember, ElementsText, ElementValues;
    PrintedIsSpelled(c, items[0], format, depth);
    var blank := if format then [0x20] else [];
    var e := Element(before, Spell(c, items[0], format, depth), []);
    var rest := SpellItems(c, items[1..], blank, format, depth);
    var t := PrintValue(c, items[0], format, depth);
    assert SpellItems(c, items, before, format, depth) == [e] + rest && [items[0]] + items[1..] == items;
    assert ElementText(c, e) == before + (t + []);
    assert ValidElement(c, e);
    hide ElementText, ValidElement, SpellItems;
    if |items| > 1 {
      ItemsAreSpelled(c, items[1..], blank, format, depth);
      Regroup(before, t, [0x2C], blank, PrintItems(c, items[1..], format, depth));
    } else {
      NoItems(c, format, depth);
      assert items[1..] == [];
      NothingAdded(before, t);
    }
    ConsElements(c, e, rest);
  }

  lemma {:induction false} MembersAreSpelled(c: NumberCodec, members: seq<Member>, format: bool, depth: nat)
    requires members != [] && depth > 0 && forall i :: 0 <= i < |members| ==> WellFormedMember(c, members[i])
    ensures var r := SpellMembers(c, members, format, depth);
            && (forall i :: 0 <= i < |r| ==> ValidEntry(c, r[i])) && EntryValues(c, r) == members
            && EntriesText(c, r) == If(format, [NEWLINE]) + PrintMembers(c, members, format, depth)
                                    + If(format, Tabs(depth - 1))
    decreases members, 2
  {
    hide WellFormedMember, SpellMember, PrintMember, EntryText, ValidEntry, EntryValue, EntriesText, EntryValues, Tabs;
    var last := |members| == 1;
    MemberIsSpelled(c, members[0], last, format, depth);
    var e, rest := SpellMember(c, members[0], last, format, depth), SpellMembers(c, members[1..], format, depth);
    assert SpellMembers(c, members, format, depth) == [e] + rest && [members[0]] + members[1..] == members;
    hide SpellMembers;
    var newline, tabs := If(format, [NEWLINE]), If(format, Tabs(depth - 1));
    var text := PrintMember(c, members[0], last, format, depth);
    if last {
      NoMembers(c, format, depth);
      assert members[1..] == [];
      NothingAdded(newline, text);
    } else {
      MembersAreSpelled(c, members[1..], format, depth);
      RegroupMembers(EntryText(c, e), newline, text, PrintMembers(c, members[1..], format, depth), tabs);
    }
    ConsEntries(c, e, rest);
  }

  lemma {:induction false} MemberIsRight(c: NumberCodec, m: Member, last: bool, format: bool, depth: nat)
    requires depth > 0 && WellFormedMember(c, m)
    ensures var e := SpellMember(c, m, last, format, depth);
            && ValidEntry(c, e) && EntryValue(c, e) == m
            && Text(c, e.value) == PrintValue(c, m.value, format, depth) && StringText(e.key) == Literal(m.name)
    decreases m, 1
  {
    hide Spell, Valid, Value, WellFormed, PrintValue, Text, SpellBytes, UnitsBytes, StringText, Literal, Tabs, NewLine,
         CString, ValidUnit;
    PrintedIsSpelled(c, m.value, format, depth);
    LiteralIsSpelled(m.name);
  }

  /** One member: the line before it, and after the last one the line of the closing brace. */
  lemma {:induction false} MemberIsSpelled(c: NumberCodec, m: Member, last: bool, format: bool, depth: nat)
    requires depth > 0 && WellFormedMember(c, m)
    ensures var e := SpellMember(c, m, last, format, depth);
            && ValidEntry(c, e) && EntryValue(c, e) == m
            && if last then
                 EntryText(c, e) == If(format, [NEWLINE]) + PrintMember(c, m, last, format, depth)
                                    + If(format, Tabs(depth - 1))
               else
                 EntryText(c, e) + [0x2C] + If(format, [NEWLINE])
                 == If(format, [NEWLINE]) + PrintMember(c, m, last, format, depth)
    decreases m, 2
  {
    hide Spell, Value, WellFormed, PrintValue, Text, SpellBytes, UnitsBytes, StringText, Literal, Tabs, NewLine,
         ValidEntry, EntryValue, WellFormedMember;
    MemberIsRight(c, m, last, format, depth);
    NewLineIs(format, depth);
    NewLineIs(format, depth - 1);
    if format {
      FormattedMember(Literal(m.name), PrintValue(c, m.value, format, depth), Tabs(depth), Tabs(depth - 1));
    } else {
      PlainMember(Literal(m.name), PrintValue(c, m.value, format, depth));
    }
  }

  lemma FormattedMember(k: seq<Byte>, t: seq<Byte>, tabs: seq<Byte>, close: seq<Byte>)
    ensures [NEWLINE] + tabs + (k + ([] + ([0x3A] + ([0x09] + (t + ([NEWLINE] + close))))))
            == [NEWLINE] + (tabs + k + [COLON] + [TAB] + t + [] + [NEWLINE]) + close
    ensures [NEWLINE] + tabs + (k + ([] + ([0x3A] + ([0x09] + (t + []))))) + [0x2C] + [NEWLINE]
            == [NEWLINE] + (tabs + k + [COLON] + [TAB] + t + [COMMA] + [NEWLINE])
  {}

  lemma PlainMember(k: seq<Byte>, t: seq<Byte>)
    ensures [] + [] + (k + ([] + ([0x3A] + ([] + (t + ([] + []))))))
            == [] + ([] + k + [COLON] + [] + t + [] + []) + []
    ensures [] + [] + (k + ([] + ([0x3A] + ([] + (t + []))))) + [0x2C] + []
            == [] + ([] + k + [COLON] + [] + t + [COMMA] + [])
  {}

  // ----- The round trip -----

  /** A printed value standing anywhere is read back, exactly as far as the nesting limit allows. */
  lemma ValueReadsBack(c: NumberCodec, content: seq<Byte>, p: nat, j: Json, format: bool, pd: nat, depth: nat)
    requires Terminated(content) && WellFormed(c, j) && depth <= 1000
    requires StandsAt(content, p, PrintValue(c, j, format, pd))
    requires var q := p + |PrintValue(c, j, format, pd)|; q < |content| && !InNumber(content[q])
    ensures p < |content| && Reads(ParseValue(c, content, p, depth), j, p + |PrintValue(c, j, format, pd)|, depth)
  {
    hide PrintValue, ParseValue, WellFormed, Text, Spell, Value, Valid, StandsAt, Reads;
    PrintedIsSpelled(c, j, format, pd);
    ValueIsRead(c, content, p, Spell(c, j, format, pd), depth);
  }

  /** Formatted or not, the text of a tree parses to the tree, to its end, if and only if it is nested at most 1000
      deep. */
  lemma PrintedTextParses(c: NumberCodec, j: Json, format: bool, requireTerminated: bool)
    requires WellFormed(c, j)
    ensures var text := PrintValue(c, j, format, 0);
            var r := ParseText(c, text, requireTerminated);
            if Nesting(j) <= 1000 then r == Parsed(j, |text|) else r.Failed?
  {
    hide PrintValue, ParseText, WellFormed, Text, Spell, Value, Valid, Nesting;
    var text := PrintValue(c, j, format, 0);
    PrintedIsSpelled(c, j, format, 0);
    TextIsRead(c, [], Spell(c, j, format, 0), [], requireTerminated);
    assert [] + text + [] == text && [] + text == text;
  }
}
