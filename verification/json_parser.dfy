/** The recursive-descent parser of fern/cJSON.c over a cursor: it builds trees of linked items that stand for what the
    parsing functions of `JsonText` give. */
module JsonParser {
  import opened Bits
  import opened JsonForests
  import opened JsonItems
  import opened JsonStrings
  import opened JsonText
  import opened JsonTrees
  import opened JsonValues
  import opened Options

  /** What a parse that starts after `items` have been collected amounts to. */
  function Collected<T>(items: seq<T>, rest: Parsed<seq<T>>): Parsed<seq<T>> {
    match rest
    case Parsed(more, offset) => Parsed(items + more, offset)
    case Failed(offset) => Failed(offset)
  }

  class ParseBuffer {
    /** A C string with its NUL. */
    const content: seq<Byte>
    var offset: nat
    var depth: nat

    constructor (text: seq<Byte>)
      ensures content == text + [0] && offset == 0 && depth == 0 && Valid()
    {
      content := text + [0];
      offset, depth := 0, 0;
    }

    predicate Valid()
      reads this`offset
    {
      Terminated(content) && offset < |content|
    }

    /** The cursor stands where the specification says, with the same value or an error there. */
    ghost predicate Agrees<T>(spec: Parsed<T>, ok: bool, value: T)
      reads this`offset
    {
      spec == if ok then Parsed(value, offset) else Failed(offset)
    }

    /** Elements have been read, and more are to come or the closing bracket. */
    ghost predicate ElementsToCome(c: NumberCodec, says: seq<Content>, all: Parsed<seq<Json>>, more: bool)
      requires Valid()
      reads this`offset, this`depth
    {
      if more then
        offset + 1 < |content| && all == Collected(ItemsOf(says), ParseItems(c, content, offset + 1, depth))
      else
        all == if content[offset] == CLOSE_BRACKET then Parsed(ItemsOf(says), offset + 1) else Failed(offset)
    }

    /** Members have been read, and more are to come or the closing brace. */
    ghost predicate MembersToCome(c: NumberCodec, says: seq<Content>, all: Parsed<seq<Member>>, more: bool)
      requires Valid()
      reads this`offset, this`depth
    {
      if more then
        offset + 1 < |content|
                && all == Collected(MembersOf(says), JsonText.ParseMembers(c, content, offset + 1, depth))
      else
        all == if content[offset] == CLOSE_BRACE then Parsed(MembersOf(says), offset + 1) else Failed(offset)
    }

    /** `buffer_skip_whitespace`. */
    method SkipWhitespace()
      requires Valid()
      modifies this`offset
      ensures Valid() && offset == JsonText.SkipWhitespace(content, old(offset))
    {
      while offset < |content| && content[offset] <= 0x20
        invariant old(offset) <= offset <= |content|
        invariant if offset < |content|
                  then JsonText.SkipWhitespace(content, offset) == JsonText.SkipWhitespace(content, old(offset))
                  else JsonText.SkipWhitespace(content, old(offset)) == |content| - 1
        decreases |content| - offset
      {
        offset := offset + 1;
      }
      if offset == |content| {
        offset := offset - 1;
      }
    }

    /** The bytes of a number that are copied for `strtod`, at most 63. */
    method NumberBytes() returns (number: seq<Byte>)
      requires Valid()
      ensures number == content[offset..NumberRunEnd(content, offset, 63)]
    {
      var i := 0;
      number := [];
      while i < 63 && offset + i < |content| && IsNumberByte(content[offset + i])
        invariant offset + i <= |content| && i <= 63 && number == content[offset..offset + i]
        invariant NumberRunEnd(content, offset, 63) == NumberRunEnd(content, offset + i, 63 - i)
        decreases 63 - i
      {
        number := number + [content[offset + i]];
        i := i + 1;
      }
    }

    /** `parse_number`. */
    method ParseNumber(c: NumberCodec, item: Item) returns (ok: bool)
      requires Valid()
      modifies this`offset, item`kind, item`valueint, item`valuedouble
      ensures Agrees(JsonText.ParseNumber(c, content, old(offset)), ok, Number(item.valuedouble))
      ensures ok ==> item.kind == NumberKind && item.valueint == AsInt(item.valuedouble)
    {
      hide NumberRunEnd;
      var number := NumberBytes();
      var (value, length) := c.strtod(number);
      if length == 0 {
        return false;
      }
      item.valuedouble, item.valueint, item.kind := value, AsInt(value), NumberKind;
      offset := offset + length;
      return true;
    }

    /** `parse_string` at the cursor. */
    method ParseString(item: Item) returns (ok: bool)
      requires Valid()
      modifies this`offset, item`kind, item`valuestring
      ensures Agrees(ParseStringAt(content, old(offset)), ok, item.valuestring)
      ensures ok ==> item.kind == StringKind && 0 !in item.valuestring
      ensures ok ==> Valid() && old(offset) < offset
      ensures !ok ==> item.valuestring == old(item.valuestring)
    {
      ParsedInside(content, offset);
      StringIsCString(content, offset);
      hide ParseStringAt;
      var value, end;
      ok, value, end := JsonStrings.ParseString(content, offset);
      offset := end;
      if ok {
        item.kind, item.valuestring := StringKind, value;
      }
    }

    /** Tries one of the three words. */
    method ParseWord(word: seq<Byte>) returns (found: bool)
      requires Valid() && word != [] && 0 !in word
      modifies this`offset
      ensures Valid() && found == StandsAt(content, old(offset), word)
      ensures offset == old(offset) + if found then |word| else 0
    {
      found := offset + |word| <= |content| && content[offset..offset + |word|] == word;
      if found {
        StandsIndex(content, offset, word, |word| - 1);
        offset := offset + |word|;
      }
    }

    /** The branches of `parse_value` that do not nest: words, strings and numbers. */
    method ParsePlain(c: NumberCodec, item: Item) returns (ok: bool)
      requires Valid() && content[offset] != OPEN_BRACKET && content[offset] != OPEN_BRACE
      requires 0 !in item.valuestring && item.valueint == 0 && item.child == null
      modifies this`offset, item`kind, item`valuestring, item`valueint, item`valuedouble
      ensures Agrees(JsonText.ParseValue(c, content, old(offset), depth), ok, JsonOf(Content(LabelOf(item), [])))
      ensures ok ==> Valid() && old(offset) < offset && 0 !in item.valuestring
      ensures ok ==> Exact(Content(LabelOf(item), []))
    {
      hide ParseStringAt, JsonText.ParseNumber, StandsAt, ParseItems, JsonText.ParseMembers;
      ok := ParseWord(NULL_TEXT);
      if ok {
        item.kind := NullKind;
        return;
      }
      ok := ParseWord(FALSE_TEXT);
      if ok {
        item.kind := FalseKind;
        return;
      }
      ok := ParseWord(TRUE_TEXT);
      if ok {
        item.kind, item.valueint := TrueKind, 1;
        return;
      }
      if content[offset] == QUOTE {
        ok := ParseString(item);
      } else if StartsNumber(content[offset]) {
        NumberInside(c, content, offset);
        ok := ParseNumber(c, item);
      }
    }

    /** `parse_value` into a new item: a linked tree of new items that stands for the value, the cursor after it and the
        nesting restored; or the cursor at the error. */
    method ParseValue(c: NumberCodec, item: Item) returns (ok: bool, ghost t: Tree, ghost v: Content)
      requires Valid() && item.child == null && 0 !in item.valuestring
      requires item.valueint == 0
      modifies this, item`kind, item`valuestring, item`valueint, item`valuedouble, item`child
      ensures Agrees(JsonText.ParseValue(c, content, old(offset), old(depth)), ok, JsonOf(v))
      ensures ok ==> Valid() && old(offset) < offset && depth == old(depth)
      ensures ok ==> Stands(item, t, v) && Exact(v) && fresh(t.below)
      decreases |content| - offset, 1
    {
      hide JsonText.ParseValue, Stands, JsonOf, LabelOf, Exact;
      if content[offset] == OPEN_BRACKET {
        ok, t, v := ParseArray(c, item);
      } else if content[offset] == OPEN_BRACE {
        ok, t, v := ParseObject(c, item);
      } else {
        ok := ParsePlain(c, item);
        t, v := Tree(item, [], {}), Content(LabelOf(item), []);
        if ok {
          LeafStands(item);
        }
      }
    }

    /** The byte before a value, white space and the value. */
    method ParseNextValue(c: NumberCodec, item: Item) returns (ok: bool, ghost t: Tree, ghost v: Content)
      requires Valid() && offset + 1 < |content| && item.child == null && 0 !in item.valuestring
      requires item.valueint == 0
      modifies this, item`kind, item`valuestring, item`valueint, item`valuedouble, item`child
      ensures Agrees(JsonText.ParseValue(c, content, JsonText.SkipWhitespace(content, old(offset) + 1), old(depth)), ok,
                     JsonOf(v))
      ensures ok ==> Valid() && old(offset) + 1 < offset && depth == old(depth)
      ensures ok ==> Stands(item, t, v) && Exact(v) && fresh(t.below) && v.says.name == item.name
      decreases |content| - offset - 1, 2
    {
      hide JsonText.ParseValue, JsonText.SkipWhitespace, Stands, JsonOf, Exact;
      offset := offset + 1;
      SkipWhitespace();
      ok, t, v := ParseValue(c, item);
      if ok {
        RootIs(item, t, v);
      }
    }

    /** The next element: a new item, linked to the list before its value is parsed. */
    method ParseElement(c: NumberCodec, head: Item?, last: Item?, ghost f: Forest)
      returns (ok: bool, newHead: Item, newItem: Item, ghost more: Forest, ghost v: Content)
      requires Valid() && offset + 1 < |content| && Grown(f) && Listed(f, head, last)
      modifies this, Just(last)`next
      ensures Agrees(JsonText.ParseValue(c, content, JsonText.SkipWhitespace(content, old(offset) + 1), old(depth)), ok,
                     JsonOf(v))
      ensures ok ==> Valid() && old(offset) + 1 < offset && depth == old(depth)
      ensures ok ==> Exact(v) && Extends(more, f, newHead, newItem, v)
      ensures ok ==> fresh(more.items - f.items)
      decreases |content| - offset - 1, 3
    {
      hide *;
      newItem, newHead := NewLast(head, last, f);
      assert allocated(f.items);
      ghost var t;
      ok, t, v := ParseNextValue(c, newItem);
      more := With(f, t, v);
      if ok {
        Grows(f, newHead, newItem, t, v);
      }
    }

    /** One turn of the loop of `parse_array`. */
    method NextElement(c: NumberCodec, head: Item?, last: Item?, ghost f: Forest, ghost all: Parsed<seq<Json>>)
      returns (ok: bool, again: bool, newHead: Item, newItem: Item, ghost more: Forest)
      requires Valid() && Grown(f) && AllExact(f.says) && Listed(f, head, last) && ElementsToCome(c, f.says, all, true)
      modifies this, Just(last)`next
      ensures !ok ==> all == Failed(offset)
      ensures ok ==> Valid() && old(offset) < offset && depth == old(depth) && ElementsToCome(c, more.says, all, again)
      ensures ok ==> Grown(more) && Listed(more, newHead, newItem) && newItem in more.items && AllExact(more.says)
      ensures ok ==> fresh(more.items - f.items)
      decreases |content| - offset - 1, 4
    {
      hide JsonText.ParseValue, ParseItems, JsonText.SkipWhitespace, Grown, Stands, ItemsOf, JsonOf, Extends, Listed,
           Siblings, Exact, AllExact;
      ghost var v;
      ItemsUnfold(c, content, offset + 1, depth, ItemsOf(f.says));
      again := false;
      ok, newHead, newItem, more, v := ParseElement(c, head, last, f);
      if !ok {
        return;
      }
      ExtendsIs(more, f, newHead, newItem, v);
      ItemsSnoc(f.says, v);
      OneMoreExact(f.says, v);
      SkipWhitespace();
      again := content[offset] == COMMA;
    }

    /** The loop of `parse_array`, from just before the first element to just after the closing bracket. */
    method ParseElements(c: NumberCodec) returns (ok: bool, head: Item?, ghost f: Forest)
      requires Valid() && offset + 1 < |content|
      modifies this
      ensures Agrees(ParseItems(c, content, old(offset) + 1, old(depth)), ok, ItemsOf(f.says))
      ensures ok ==> Valid() && old(offset) < offset && depth == old(depth)
      ensures ok ==> Grown(f) && Siblings(Roots(f.trees)) && head == At(Roots(f.trees), 0) && fresh(f.items)
      ensures ok ==> AllExact(f.says)
      decreases |content| - offset - 1, 5
    {
      hide ParseItems, Grown, Siblings, ItemsOf, JsonOf, Roots, Listed, At, Collected, Terminated, AllExact;
      ghost var all := ParseItems(c, content, offset + 1, depth);
      var last: Item?;
      head, last, f := null, null, BARE;
      BareIsGrown();
      CollectedNone(all);
      ok := true;
      var again := true;
      while again
        invariant old(offset) <= offset && Valid() && depth == old(depth) && ElementsToCome(c, f.says, all, again)
        invariant AllExact(f.says) && Grown(f) && Listed(f, head, last) && fresh(f.items)
                && (last != null ==> last in f.items)
        invariant !again ==> old(offset) < offset
        decreases |content| - offset, again
      {
        ok, again, head, last, f := NextElement(c, head, last, f, all);
        if !ok {
          return;
        }
      }
      ListedIs(f, head, last);
      ok := content[offset] == CLOSE_BRACKET;
      if ok {
        offset := offset + 1;
      }
    }

    /** `parse_array`. */
    method ParseArray(c: NumberCodec, item: Item) returns (ok: bool, ghost t: Tree, ghost v: Content)
      requires Valid() && content[offset] == OPEN_BRACKET && item.child == null && 0 !in item.valuestring
      requires item.valueint == 0
      modifies this, item`kind, item`child
      ensures Agrees(JsonText.ParseValue(c, content, old(offset), old(depth)), ok, JsonOf(v))
      ensures ok ==> Valid() && old(offset) < offset && depth == old(depth)
      ensures ok ==> Stands(item, t, v) && Exact(v) && fresh(t.below)
      decreases |content| - offset, 0
    {
      hide JsonText.ParseValue, ParseItems, JsonText.SkipWhitespace, Grown, Siblings, ItemsOf, Stands, Sound, Exact,
           AllExact;
      t, v := Tree(item, [], {}), Content(LabelOf(item), []);
      ParseArrayUnfold(c, content, offset, depth);
      if depth >= CJSON_NESTING_LIMIT {
        return false, t, v;
      }
      depth := depth + 1;
      offset := offset + 1;
      SkipWhitespace();
      var head: Item?;
      ghost var f;
      if content[offset] == CLOSE_BRACKET {
        head, f := null, BARE;
        BareIsGrown();
        offset := offset + 1;
      } else {
        offset := offset - 1;
        ok, head, f := ParseElements(c);
        if !ok {
          return;
        }
      }
      depth := depth - 1;
      t, v := Become(item, ArrayKind, head, f);
      ok := true;
    }

    /** A key into the item, up to the byte after white space. */
    method ParseKey(item: Item) returns (ok: bool)
      requires Valid() && offset + 1 < |content|
      modifies this`offset, item`kind, item`valuestring, item`name
      ensures var key := ParseStringAt(content, JsonText.SkipWhitespace(content, old(offset) + 1));
              if key.Failed? then !ok && offset == key.offset
              else ok && item.name == Some(key.value) && 0 !in key.value
                   && offset == JsonText.SkipWhitespace(content, key.offset)
      ensures ok ==> Valid() && item.valuestring == [] && old(offset) + 1 < offset
    {
      hide JsonText.SkipWhitespace, ParseStringAt;
      offset := offset + 1;
      SkipWhitespace();
      ok := ParseString(item);
      if ok {
        SkipWhitespace();
        item.name, item.valuestring := Some(item.valuestring), [];
      }
    }

    /** The next member: a new item, linked to the list before its key, colon and value are parsed. */
    method ParseMember(c: NumberCodec, head: Item?, last: Item?, ghost f: Forest)
      returns (ok: bool, newHead: Item, newItem: Item, ghost more: Forest, ghost v: Content)
      requires Valid() && offset + 1 < |content| && Grown(f) && Listed(f, head, last)
      modifies this, Just(last)`next
      ensures Agrees(JsonText.ParseMember(c, content, old(offset) + 1, old(depth)), ok, Member(NameOf(v), JsonOf(v)))
      ensures ok ==> Valid() && old(offset) + 1 < offset && depth == old(depth)
      ensures ok ==> Exact(v) && Extends(more, f, newHead, newItem, v) && Named(v)
      ensures ok ==> fresh(more.items - f.items)
      decreases |content| - offset - 1, 3
    {
      hide JsonText.ParseValue, JsonText.SkipWhitespace, ParseStringAt, Grown, Stands, Siblings, Extends, JsonOf, With,
           Exact;
      newItem, newHead := NewLast(head, last, f);
      assert allocated(f.items);
      more, v := f, Content(LabelOf(newItem), []);
      ok := ParseKey(newItem);
      if !ok {
        return;
      }
      if content[offset] != COLON {
        ok := false;
        return;
      }
      ghost var t;
      ok, t, v := ParseNextValue(c, newItem);
      more := With(f, t, v);
      if ok {
        Grows(f, newHead, newItem, t, v);
      }
    }

    /** One turn of the loop of `parse_object`. */
    method NextMember(c: NumberCodec, head: Item?, last: Item?, ghost f: Forest, ghost all: Parsed<seq<Member>>)
      returns (ok: bool, again: bool, newHead: Item, newItem: Item, ghost more: Forest)
      requires Valid() && Grown(f) && AllExact(f.says) && Listed(f, head, last)
              && MembersToCome(c, f.says, all, true) && AllNamed(f.says)
      modifies this, Just(last)`next
      ensures !ok ==> all == Failed(offset)
      ensures ok ==> Valid() && old(offset) < offset && depth == old(depth) && MembersToCome(c, more.says, all, again)
      ensures ok ==> Grown(more) && Listed(more, newHead, newItem) && newItem in more.items
      ensures ok ==> AllExact(more.says) && AllNamed(more.says)
      ensures ok ==> fresh(more.items - f.items)
      decreases |content| - offset - 1, 4
    {
      hide JsonText.ParseMember, JsonText.ParseMembers, JsonText.SkipWhitespace, Grown, Stands, MembersOf, JsonOf,
           NameOf, Named, Extends, Listed, Siblings, Exact, AllExact;
      ghost var v;
      MembersUnfold(c, content, offset + 1, depth, MembersOf(f.says));
      again := false;
      ok, newHead, newItem, more, v := ParseMember(c, head, last, f);
      if !ok {
        return;
      }
      ExtendsIs(more, f, newHead, newItem, v);
      MembersSnoc(f.says, v);
      OneMoreExact(f.says, v);
      SkipWhitespace();
      again := content[offset] == COMMA;
    }

    /** The loop of `parse_object`, from just before the first key to just after the closing brace. */
    method ParseMembers(c: NumberCodec) returns (ok: bool, head: Item?, ghost f: Forest)
      requires Valid() && offset + 1 < |content|
      modifies this
      ensures Agrees(JsonText.ParseMembers(c, content, old(offset) + 1, old(depth)), ok, MembersOf(f.says))
      ensures ok ==> Valid() && old(offset) < offset && depth == old(depth)
      ensures ok ==> Grown(f) && Siblings(Roots(f.trees)) && head == At(Roots(f.trees), 0) && fresh(f.items)
      ensures ok ==> AllExact(f.says)
      ensures ok ==> AllNamed(f.says)
      decreases |content| - offset - 1, 5
    {
      hide JsonText.ParseMembers, Grown, Siblings, MembersOf, JsonOf, NameOf, AllNamed, Roots, Listed, At, Collected,
           Terminated, AllExact;
      ghost var all := JsonText.ParseMembers(c, content, offset + 1, depth);
      var last: Item?;
      head, last, f := null, null, BARE;
      BareIsGrown();
      CollectedNone(all);
      ok := true;
      var again := true;
      while again
        invariant old(offset) <= offset && Valid() && depth == old(depth) && MembersToCome(c, f.says, all, again)
                && AllNamed(f.says)
        invariant AllExact(f.says) && Grown(f) && Listed(f, head, last) && fresh(f.items)
                && (last != null ==> last in f.items)
        invariant !again ==> old(offset) < offset
        decreases |content| - offset, again
      {
        ok, again, head, last, f := NextMember(c, head, last, f, all);
        if !ok {
          return;
        }
      }
      ListedIs(f, head, last);
      ok := content[offset] == CLOSE_BRACE;
      if ok {
        offset := offset + 1;
      }
    }

    /** `parse_object`. */
    method ParseObject(c: NumberCodec, item: Item) returns (ok: bool, ghost t: Tree, ghost v: Content)
      requires Valid() && content[offset] == OPEN_BRACE && item.child == null && 0 !in item.valuestring
      requires item.valueint == 0
      modifies this, item`kind, item`child
      ensures Agrees(JsonText.ParseValue(c, content, old(offset), old(depth)), ok, JsonOf(v))
      ensures ok ==> Valid() && old(offset) < offset && depth == old(depth)
      ensures ok ==> Stands(item, t, v) && Exact(v) && fresh(t.below)
      decreases |content| - offset, 0
    {
      hide JsonText.ParseValue, JsonText.ParseMembers, JsonText.SkipWhitespace, Grown, Siblings, MembersOf, Stands,
           Sound, Named, Exact, AllExact;
      t, v := Tree(item, [], {}), Content(LabelOf(item), []);
      ParseObjectUnfold(c, content, offset, depth);
      if depth >= CJSON_NESTING_LIMIT {
        return false, t, v;
      }
      depth := depth + 1;
      offset := offset + 1;
      SkipWhitespace();
      var head: Item?;
      ghost var f;
      if content[offset] == CLOSE_BRACE {
        head, f := null, BARE;
        BareIsGrown();
        offset := offset + 1;
      } else {
        offset := offset - 1;
        ok, head, f := ParseMembers(c);
        if !ok {
          return;
        }
      }
      depth := depth - 1;
      t, v := Become(item, ObjectKind, head, f);
      ok := true;
    }

    /** `skip_utf8_bom` at the start of the buffer. */
    method SkipUtf8Bom()
      requires Valid() && offset == 0
      modifies this`offset
      ensures Valid() && offset == SkipBom(content)
    {
      if 4 < |content| && content[..3] == [0xEF, 0xBB, 0xBF] {
        offset := 3;
      }
    }
  }

  /** `cJSON_ParseWithOpts`: a linked tree that stands for the value and where reading ended, or no tree and the
      error's place inside the text. */
  method ParseWithOpts(c: NumberCodec, text: seq<Byte>, requireTerminated: bool)
    returns (r: Item?, end: nat, ghost t: Tree, ghost v: Content)
    ensures end <= |text|
    ensures match ParseText(c, text, requireTerminated)
            case Parsed(value, offset) => r != null && JsonOf(v) == value && end == offset
            case Failed(offset) => r == null && end == if offset <= |text| then offset else |text|
    ensures r != null ==> Stands(r, t, v) && Exact(v) && Detached(r) && v.says.name == None
    ensures r != null ==> fresh(r) && fresh(t.below)
  {
    hide JsonText.ParseValue, JsonText.SkipWhitespace, Stands, JsonOf, Exact;
    var b := new ParseBuffer(text);
    b.SkipUtf8Bom();
    b.SkipWhitespace();
    var item := new Item();
    var ok;
    ok, t, v := b.ParseValue(c, item);
    if ok {
      RootStands(item, t, v);
      if requireTerminated {
        b.SkipWhitespace();
        ok := b.content[b.offset] == 0;
      }
    }
    r := if ok then item else null;
    end := if b.offset < |b.content| then b.offset else |b.content| - 1;
  }

  lemma StringIsCString(content: seq<Byte>, offset: nat)
    requires offset < |content|
    ensures ParseStringAt(content, offset).Parsed? ==> 0 !in ParseStringAt(content, offset).value
  {
    hide ClosingQuote, Unescape;
  }

  lemma CollectedNone<T>(rest: Parsed<seq<T>>)
    ensures Collected([], rest) == rest
  {
    if rest.Parsed? {
      assert [] + rest.value == rest.value;
    }
  }

  /** One turn of the loop over elements, after `items` have been collected. */
  lemma ItemsUnfold(c: NumberCodec, content: seq<Byte>, p: nat, depth: nat, items: seq<Json>)
    requires Terminated(content) && p < |content|
    ensures var first := JsonText.ParseValue(c, content, SkipWhitespace(content, p), depth);
            Collected(items, ParseItems(c, content, p, depth)) ==
            if first.Failed? then Failed(first.offset)
            else
              var q := SkipWhitespace(content, first.offset);
              if content[q] == COMMA then Collected(items + [first.value], ParseItems(c, content, q + 1, depth))
              else if content[q] == CLOSE_BRACKET then Parsed(items + [first.value], q + 1)
              else Failed(q)
  {
    hide JsonText.ParseValue, SkipWhitespace;
    var first := JsonText.ParseValue(c, content, SkipWhitespace(content, p), depth);
    if first.Parsed? {
      var q := SkipWhitespace(content, first.offset);
      if content[q] == COMMA {
        var rest := ParseItems(c, content, q + 1, depth);
        if rest.Parsed? {
          assert items + ([first.value] + rest.value) == items + [first.value] + rest.value;
        }
      }
    }
  }

  lemma MembersUnfold(c: NumberCodec, content: seq<Byte>, p: nat, depth: nat, members: seq<Member>)
    requires Terminated(content) && p < |content|
    ensures var first := ParseMember(c, content, p, depth);
            Collected(members, ParseMembers(c, content, p, depth)) ==
            if first.Failed? then Failed(first.offset)
            else
              var q := SkipWhitespace(content, first.offset);
              if content[q] == COMMA then Collected(members + [first.value], ParseMembers(c, content, q + 1, depth))
              else if content[q] == CLOSE_BRACE then Parsed(members + [first.value], q + 1)
              else Failed(q)
  {
    hide ParseMember, SkipWhitespace;
    var first := ParseMember(c, content, p, depth);
    if first.Parsed? {
      var q := SkipWhitespace(content, first.offset);
      if content[q] == COMMA {
        var rest := ParseMembers(c, content, q + 1, depth);
        if rest.Parsed? {
          assert members + ([first.value] + rest.value) == members + [first.value] + rest.value;
        }
      }
    }
  }
}
