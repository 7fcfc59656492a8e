/** What the parser of fern/cJSON.c accepts, for every text, and printing it again. */
module JsonAccepted {
  import opened Bits
  import opened JsonRoundTrip
  import opened JsonStrings
  import opened JsonText

  /** Whatever number `strtod` reads, it reads again from what is printed for it. */
  ghost predicate NumbersReadBack(c: NumberCodec) {
    forall s :: c.strtod(s).1 > 0 ==> ReadsBack(c, c.strtod(s).0)
  }

  /** What an accepted value is like, `depth` levels down. */
  ghost predicate Acceptable(c: NumberCodec, j: Json, depth: nat) {
    CStrings(j) && depth + Nesting(j) <= 1000 && (NumbersReadBack(c) ==> WellFormed(c, j))
  }

  ghost predicate AcceptableItems(c: NumberCodec, items: seq<Json>, depth: nat) {
    forall i :: 0 <= i < |items| ==> Acceptable(c, items[i], depth)
  }

  ghost predicate AcceptableMembers(c: NumberCodec, members: seq<Member>, depth: nat) {
    forall i :: 0 <= i < |members| ==> 0 !in members[i].name && Acceptable(c, members[i].value, depth)
  }

  lemma {:induction false} ItemsNest(items: seq<Json>, limit: nat)
    requires forall i :: 0 <= i < |items| ==> Nesting(items[i]) <= limit
    ensures NestingOfItems(items) <= limit
  {
    if items != [] {
      ItemsNest(items[1..], limit);
    }
  }

  lemma {:induction false} MembersNest(members: seq<Member>, limit: nat)
    requires forall i :: 0 <= i < |members| ==> Nesting(members[i].value) <= limit
    ensures NestingOfMembers(members) <= limit
  {
    if members != [] {
      MembersNest(members[1..], limit);
    }
  }

  lemma ArrayIsAcceptable(c: NumberCodec, items: seq<Json>, depth: nat)
    requires depth < 1000 && AcceptableItems(c, items, depth + 1)
    ensures Acceptable(c, Array(items), depth)
  {
    hide NumbersReadBack;
    ItemsNest(items, 1000 - depth - 1);
  }

  lemma ObjectIsAcceptable(c: NumberCodec, members: seq<Member>, depth: nat)
    requires depth < 1000 && AcceptableMembers(c, members, depth + 1)
    ensures Acceptable(c, Object(members), depth)
  {
    hide NumbersReadBack;
    MembersNest(members, 1000 - depth - 1);
    forall i | 0 <= i < |members|
      ensures MemberCStrings(members[i]) && (NumbersReadBack(c) ==> WellFormedMember(c, members[i]))
    {
      assert Acceptable(c, members[i].value, depth + 1);
    }
  }

  lemma NumberIsAcceptable(c: NumberCodec, content: seq<Byte>, offset: nat, depth: nat)
    requires offset < |content| && depth <= 1000
    ensures var r := ParseNumber(c, content, offset); r.Parsed? ==> Acceptable(c, r.value, depth)
  {
    hide NumberRunEnd, ReadsBack;
  }

  /** Every value that is accepted has C strings only, is nested within the limit, and is one of those that the round
      trip is about if numbers read back. */
  lemma {:induction false} AcceptedValue(c: NumberCodec, content: seq<Byte>, offset: nat, depth: nat)
    requires Terminated(content) && offset < |content| && depth <= 1000
    ensures var r := ParseValue(c, content, offset, depth); r.Parsed? ==> Acceptable(c, r.value, depth)
    decreases |content| - offset, 0
  {
    hide Acceptable, AcceptableItems, AcceptableMembers, StandsAt, ParseStringAt, ParseNumber, ParseItems, ParseMembers,
         SkipWhitespace;
    if content[offset] == OPEN_BRACKET {
      ParseArrayUnfold(c, content, offset, depth);
      if depth < 1000 {
        var p := SkipWhitespace(content, offset + 1);
        NoneAccepted(c, depth + 1);
        ArrayIsAcceptable(c, [], depth);
        if content[p] != CLOSE_BRACKET {
          AcceptedItems(c, content, p, depth + 1);
          var items := ParseItems(c, content, p, depth + 1);
          if items.Parsed? {
            ArrayIsAcceptable(c, items.value, depth);
          }
        }
      }
    } else if content[offset] == OPEN_BRACE {
      ParseObjectUnfold(c, content, offset, depth);
      if depth < 1000 {
        var p := SkipWhitespace(content, offset + 1);
        NoneAccepted(c, depth + 1);
        ObjectIsAcceptable(c, [], depth);
        if content[p] != CLOSE_BRACE {
          AcceptedMembers(c, content, p, depth + 1);
          var members := ParseMembers(c, content, p, depth + 1);
          if members.Parsed? {
            ObjectIsAcceptable(c, members.value, depth);
          }
        }
      }
    } else {
      AcceptedLeaf(c, content, offset, depth);
    }
  }

  lemma NoneAccepted(c: NumberCodec, depth: nat)
    ensures AcceptableItems(c, [], depth) && AcceptableMembers(c, [], depth)
  {}

  lemma AcceptedLeaf(c: NumberCodec, content: seq<Byte>, offset: nat, depth: nat)
    requires Terminated(content) && offset < |content| && depth <= 1000
    requires content[offset] != OPEN_BRACKET && content[offset] != OPEN_BRACE
    ensures var r := ParseValue(c, content, offset, depth); r.Parsed? ==> Acceptable(c, r.value, depth)
  {
    hide StandsAt, ParseNumber, ParseItems, ParseMembers, SkipWhitespace, ClosingQuote, Unescape, NumbersReadBack;
    if StartsNumber(content[offset]) {
      NumberIsAcceptable(c, content, offset, depth);
    }
  }

  lemma {:induction false} AcceptedItems(c: NumberCodec, content: seq<Byte>, p: nat, depth: nat)
    requires Terminated(content) && p < |content| && depth <= 1000
    ensures var r := ParseItems(c, content, p, depth); r.Parsed? ==> AcceptableItems(c, r.value, depth)
    decreases |content| - p, 1
  {
    hide Acceptable, ParseValue, SkipWhitespace;
    AcceptedValue(c, content, SkipWhitespace(content, p), depth);
    var first := ParseValue(c, content, SkipWhitespace(content, p), depth);
    if first.Parsed? {
      var q := SkipWhitespace(content, first.offset);
      if content[q] == COMMA {
        AcceptedItems(c, content, q + 1, depth);
      }
    }
  }

  lemma {:induction false} AcceptedMembers(c: NumberCodec, content: seq<Byte>, p: nat, depth: nat)
    requires Terminated(content) && p < |content| && depth <= 1000
    ensures var r := ParseMembers(c, content, p, depth); r.Parsed? ==> AcceptableMembers(c, r.value, depth)
    decreases |content| - p, 2
  {
    hide Acceptable, ParseMember, SkipWhitespace;
    AcceptedMember(c, content, p, depth);
    var first := ParseMember(c, content, p, depth);
    if first.Parsed? {
      var q := SkipWhitespace(content, first.offset);
      if content[q] == COMMA {
        AcceptedMembers(c, content, q + 1, depth);
      }
    }
  }

  lemma {:induction false} AcceptedMember(c: NumberCodec, content: seq<Byte>, p: nat, depth: nat)
    requires Terminated(content) && p < |content| && depth <= 1000
    ensures var r := ParseMember(c, content, p, depth);
            r.Parsed? ==> 0 !in r.value.name && Acceptable(c, r.value.value, depth)
    decreases |content| - p, 1
  {
    hide Acceptable, ParseValue, SkipWhitespace, ClosingQuote, Unescape;
    var start := SkipWhitespace(content, p);
    ParsedInside(content, start);
    var name := ParseStringAt(content, start);
    if name.Parsed? {
      var q := SkipWhitespace(content, name.offset);
      if content[q] == COLON {
        AcceptedValue(c, content, SkipWhitespace(content, q + 1), depth);
      }
    }
  }

  /** For every text: what is accepted can be printed, and if numbers read back, then printing it and parsing the
      result gives the same value again, whatever the format. */
  lemma AcceptedTextIsStable(c: NumberCodec, text: seq<Byte>, requireTerminated: bool, format: bool, again: bool)
    requires ParseText(c, text, requireTerminated).Parsed?
    ensures var j := ParseText(c, text, requireTerminated).value;
            && CStrings(j) && Nesting(j) <= 1000
            && (NumbersReadBack(c) ==>
                  var printed := PrintValue(c, j, format, 0);
                  ParseText(c, printed, again) == Parsed(j, |printed|))
  {
    hide ParseValue, SkipWhitespace, NumbersReadBack, WellFormed, CStrings, Nesting, PrintValue;
    var content := text + [0];
    AcceptedValue(c, content, SkipWhitespace(content, SkipBom(content)), 0);
    var j := ParseText(c, text, requireTerminated).value;
    if NumbersReadBack(c) {
      PrintedTextParses(c, j, format, again);
    }
  }
}
