/** The print buffer of fern/cJSON.c and the printer that fills it, walking linked items. */
module JsonPrinter {
  import opened Bits
  import opened JsonItems
  import opened JsonStrings
  import opened JsonText
  import opened JsonTrees
  import opened JsonValues

  /** `sprintf` writes a C string. */
  ghost predicate RendersCStrings(c: NumberCodec) {
    forall n :: 0 !in c.render(n)
  }

  /** Every number fits the printer's stack buffer. */
  predicate Printable(c: NumberCodec, j: Json) {
    match j
    case Number(n) => |c.render(n)| <= 25
    case Array(items) => forall i :: 0 <= i < |items| ==> Printable(c, items[i])
    case Object(members) => forall i :: 0 <= i < |members| ==> Printable(c, members[i].value)
    case _ => true
  }

  predicate AllPrintable(c: NumberCodec, items: seq<Json>) {
    forall i :: 0 <= i < |items| ==> Printable(c, items[i])
  }

  predicate MembersPrintable(c: NumberCodec, members: seq<Member>) {
    forall i :: 0 <= i < |members| ==> Printable(c, members[i].value)
  }

  // ----- Printed text has no NUL -----

  lemma {:induction false} TabsHaveNoNul(n: nat)
    ensures 0 !in Tabs(n)
  {
    if n > 0 {
      TabsHaveNoNul(n - 1);
    }
  }

  lemma {:induction false} LiteralHasNoNul(s: seq<Byte>)
    ensures 0 !in Literal(s)
  {
    EscapesHaveNoNul(s);
  }

  lemma {:induction false} EscapesHaveNoNul(s: seq<Byte>)
    ensures 0 !in EscapeBytes(s)
  {
    if s != [] {
      EscapesHaveNoNul(s[1..]);
    }
  }

  lemma NumberHasNoNul(c: NumberCodec, n: real)
    requires RendersCStrings(c)
    ensures 0 !in c.render(n)
  {}

  /** So `update_offset`, which looks for a NUL, finds the end of the text. */
  lemma {:induction false} TextHasNoNul(c: NumberCodec, j: Json, format: bool, depth: nat)
    requires RendersCStrings(c) && CStrings(j)
    ensures 0 !in PrintValue(c, j, format, depth)
    decreases j, 0
  {
    hide Literal, Tabs, RendersCStrings, PrintItems, PrintMembers;
    match j
    case Number(n) => assert 0 !in c.render(n) by { NumberHasNoNul(c, n); }
    case String(s) => LiteralHasNoNul(s);
    case Array(items) => ItemsHaveNoNul(c, items, format, depth + 1);
    case Object(members) =>
      MembersHaveNoNul(c, members, format, depth + 1);
      BracesHaveNoNul(c, members, format, depth);
    case _ =>
  }

  lemma BracesHaveNoNul(c: NumberCodec, members: seq<Member>, format: bool, depth: nat)
    requires 0 !in PrintMembers(c, members, format, depth + 1)
    ensures 0 !in PrintValue(c, Object(members), format, depth)
  {
    hide PrintMembers;
    TabsHaveNoNul(depth);
  }

  lemma {:induction false} ItemsHaveNoNul(c: NumberCodec, items: seq<Json>, format: bool, depth: nat)
    requires RendersCStrings(c) && forall i :: 0 <= i < |items| ==> CStrings(items[i])
    ensures 0 !in PrintItems(c, items, format, depth)
    decreases items, 1
  {
    hide RendersCStrings, CStrings, PrintValue;
    if items != [] {
      TextHasNoNul(c, items[0], format, depth);
      ItemsHaveNoNul(c, items[1..], format, depth);
    }
  }

  lemma {:induction false} MembersHaveNoNul(c: NumberCodec, members: seq<Member>, format: bool, depth: nat)
    requires RendersCStrings(c) && forall i :: 0 <= i < |members| ==> MemberCStrings(members[i])
    ensures 0 !in PrintMembers(c, members, format, depth)
    decreases members, 1
  {
    hide Literal, Tabs, RendersCStrings, PrintValue;
    if members != [] {
      LiteralHasNoNul(members[0].name);
      TabsHaveNoNul(depth);
      TextHasNoNul(c, members[0].value, format, depth);
      MembersHaveNoNul(c, members[1..], format, depth);
    }
  }

  // ----- The buffer -----

  class PrintBuffer {
    var buffer: array<Byte>
    var offset: nat
    /** Nesting, for indentation. */
    var depth: nat
    const noalloc: bool
    const format: bool
    /** All the text so far, which the offset may still lag behind. */
    ghost var printed: seq<Byte>
    /** The buffer to start with, which stays the buffer when nothing may be allocated. */
    ghost const initial: array<Byte>

    constructor (buffer: array<Byte>, noalloc: bool, format: bool)
      requires buffer.Length <= INT_MAX
      ensures this.buffer == buffer && this.noalloc == noalloc && this.format == format
      ensures Valid() && printed == [] && offset == 0 && depth == 0 && initial == buffer
    {
      this.initial := buffer;
      this.buffer, this.noalloc, this.format := buffer, noalloc, format;
      offset, depth, printed := 0, 0, [];
    }

    /** The buffer starts with the text, and the offset is inside it unless the buffer has no room at all. */
    ghost predicate Valid()
      reads this`buffer, this`offset, this`printed, buffer
    {
      && buffer.Length <= INT_MAX
      && offset <= |printed| <= buffer.Length && buffer[..|printed|] == printed
      && (buffer.Length > 0 ==> offset < buffer.Length)
      && (noalloc ==> buffer == initial)
    }

    /** A NUL follows the text. */
    ghost predicate Ended()
      reads this`buffer, this`printed, buffer
    {
      |printed| < buffer.Length && buffer[|printed|] == 0
    }

    /** How large the buffer can get. */
    function Limit(): nat
      reads this`buffer
    {
      if noalloc then buffer.Length else INT_MAX
    }

    /** `ensure`: room for `needed` bytes and one more, the text kept. */
    method Ensure(needed: nat) returns (ok: bool)
      requires Valid() && offset == |printed|
      modifies this`buffer
      ensures Valid() && Limit() == old(Limit())
      ensures ok <==> |printed| + needed + 1 <= Limit()
      ensures ok ==> |printed| + needed + 1 <= buffer.Length
      ensures buffer == old(buffer) || fresh(buffer)
    {
      if buffer.Length > 0 && offset >= buffer.Length {
        return false;
      }
      if needed > INT_MAX {
        return false;
      }
      var total := needed + offset + 1;
      if total <= buffer.Length {
        return true;
      }
      if noalloc {
        return false;
      }
      var newSize;
      if total > INT_MAX / 2 {
        if total <= INT_MAX {
          newSize := INT_MAX;
        } else {
          return false;
        }
      } else {
        newSize := total * 2;
      }
      var grown := new Byte[newSize];
      forall i | 0 <= i < buffer.Length {
        grown[i] := buffer[i];
      }
      assert grown[..|printed|] == buffer[..|printed|];
      buffer := grown;
      return true;
    }

    /** Copies bytes to the end `p` of the text, as `strcpy`, `memcpy` and runs of assignments do. */
    method Put(p: nat, bytes: seq<Byte>)
      requires Valid() && p == |printed| && p + |bytes| <= buffer.Length
      modifies this`printed, buffer
      ensures Valid() && printed == old(printed) + bytes
    {
      for i := 0 to |bytes|
        invariant printed == old(printed) && buffer[..p + i] == printed + bytes[..i]
      {
        buffer[p + i] := bytes[i];
      }
      assert bytes[..|bytes|] == bytes;
      printed := printed + bytes;
    }

    /** Writes the NUL after the text. */
    method End(p: nat)
      requires Valid() && p == |printed| < buffer.Length
      modifies buffer
      ensures Valid() && Ended()
    {
      buffer[p] := 0;
      assert buffer[..p] == printed;
    }

    /** Makes room and writes a fixed piece of text: `terminate` says whether a NUL follows, `move` whether the
        offset does. */
    method Emit(needed: nat, text: seq<Byte>, terminate: bool, move: bool) returns (ok: bool)
      requires Valid() && offset == |printed| && |text| + (if terminate then 1 else 0) <= needed
      modifies this`buffer, this`offset, this`printed, buffer
      ensures ok <==> old(|printed|) + needed + 1 <= old(Limit())
      ensures Valid() && Limit() == old(Limit()) && (buffer == old(buffer) || fresh(buffer))
      ensures ok ==> printed == old(printed) + text && (terminate ==> Ended())
      ensures ok ==> offset == if move then |printed| else old(offset)
    {
      ok := Ensure(needed);
      if ok {
        Put(offset, text);
        if terminate {
          End(offset + |text|);
        }
        if move {
          offset := offset + |text|;
        }
      }
    }

    /** `update_offset`: to the NUL that ends the text. */
    method UpdateOffset()
      requires Valid() && Ended() && 0 !in printed[offset..]
      modifies this`offset
      ensures Valid() && offset == |printed|
    {
      assert buffer[..|printed|] == printed;
      while buffer[offset] != 0
        invariant offset <= |printed|
        invariant 0 !in printed[offset..]
        invariant offset < |printed| ==> buffer[offset] == printed[offset..][0]
        decreases |printed| - offset
      {
        offset := offset + 1;
      }
    }

    // ----- Strings and numbers -----

    /** The counting pass of `print_string_ptr` over a C string. */
    static method CountEscapes(input: seq<Byte>) returns (length: nat, escapes: nat)
      requires 0 !in input
      ensures length == |input| && escapes == EscapeCosts(input)
    {
      var cstring := input + [0];
      length, escapes := 0, 0;
      while cstring[length] != 0
        invariant length <= |input|
        invariant escapes + EscapeCosts(input[length..]) == EscapeCosts(input)
        decreases |input| - length
      {
        var b := cstring[length];
        if EscapeLetter(b).Some? {
          escapes := escapes + 1;
        } else if b < 0x20 {
          escapes := escapes + 5;
        }
        length := length + 1;
      }
    }

    /** The writing pass: from the end `p` of the text on, up to where it stops. */
    method WriteEscaped(input: seq<Byte>, p: nat) returns (end: nat)
      requires Valid() && 0 !in input && p == |printed| && p + |EscapeBytes(input)| <= buffer.Length
      modifies this`printed, buffer
      ensures Valid() && printed == old(printed) + EscapeBytes(input) && end == |printed|
    {
      hide EscapeByte;
      var cstring := input + [0];
      var i := 0;
      end := p;
      ghost var all := printed + EscapeBytes(input);
      while cstring[i] != 0
        invariant i <= |input| && end == |printed|
        invariant Valid() && printed + EscapeBytes(input[i..]) == all
        decreases |input| - i
      {
        ghost var before := printed;
        var bytes := EscapeByte(cstring[i]);
        assert before + (bytes + EscapeBytes(input[i + 1..])) == before + bytes + EscapeBytes(input[i + 1..]);
        Put(end, bytes);
        end := end + |bytes|;
        i := i + 1;
      }
      assert printed + [] == printed;
    }

    /** `print_string_ptr`: count, make room, then copy or escape between quotes. */
    method PrintStringPtr(input: seq<Byte>) returns (ok: bool)
      requires Valid() && 0 !in input && offset == |printed|
      modifies this`buffer, this`printed, buffer
      ensures ok <==> old(|printed|) + |Literal(input)| + 2 <= old(Limit())
      ensures Valid() && Limit() == old(Limit()) && (buffer == old(buffer) || fresh(buffer))
      ensures ok ==> printed == old(printed) + Literal(input) && Ended()
    {
      hide EscapeBytes, EscapeCosts;
      var length, escapes := CountEscapes(input);
      CountIsExact(input);
      var outputLength := length + escapes;
      ok := Ensure(outputLength + 3);
      if !ok {
        return;
      }
      Put(offset, [QUOTE]);
      if escapes == 0 {
        Put(offset + 1, input);
      } else {
        var end := WriteEscaped(input, offset + 1);
      }
      Put(offset + outputLength + 1, [QUOTE]);
      End(offset + outputLength + 2);
      assert old(printed) + [QUOTE] + EscapeBytes(input) + [QUOTE] == old(printed) + Literal(input);
    }

    /** `print_number`: nothing longer than the stack buffer is printed. */
    method PrintNumber(c: NumberCodec, n: real) returns (ok: bool)
      requires Valid() && offset == |printed|
      modifies this`buffer, this`offset, this`printed, buffer
      ensures ok <==> |c.render(n)| <= 25 && old(|printed|) + |c.render(n)| + 2 <= old(Limit())
      ensures Valid() && Limit() == old(Limit()) && (buffer == old(buffer) || fresh(buffer))
      ensures ok ==> printed == old(printed) + c.render(n) && Ended() && offset == |printed|
    {
      var number := c.render(n);
      if |number| > NUMBER_BUFFER_SIZE - 1 {
        return false;
      }
      ok := Emit(|number| + 1, number, true, true);
    }

    /** An opening piece, and one level deeper. */
    method Open(needed: nat, text: seq<Byte>, ghost said: seq<Byte>, ghost limit: nat) returns (ok: bool)
      requires Valid() && offset == |printed| && printed == said && Limit() == limit && |text| <= needed
      modifies this`buffer, this`offset, this`printed, this`depth, buffer
      ensures Valid() && Limit() == limit && (buffer == old(buffer) || fresh(buffer))
      ensures ok <==> |said| + needed + 1 <= limit
      ensures ok ==> printed == said + text && offset == |printed| && depth == old(depth) + 1
    {
      hide *;
      ok := Emit(needed, text, false, true);
      if ok {
        depth := depth + 1;
      }
    }

    /** A closing piece with a NUL after it, and one level up; the offset stays. */
    method Close(needed: nat, text: seq<Byte>, ghost said: seq<Byte>, ghost limit: nat) returns (ok: bool)
      requires Valid() && offset == |printed| && printed == said && Limit() == limit && |text| + 1 <= needed
              && depth > 0
      modifies this`buffer, this`offset, this`printed, this`depth, buffer
      ensures Valid() && Limit() == limit && (buffer == old(buffer) || fresh(buffer))
      ensures ok <==> |said| + needed + 1 <= limit
      ensures ok ==> printed == said + text && offset == |said| && Ended() && depth == old(depth) - 1
    {
      hide *;
      ok := Emit(needed, text, true, false);
      if ok {
        depth := depth - 1;
      }
    }

    // ----- Values -----

    /** `print_value`: it succeeds exactly when every number is short and the text, its NUL and one byte more fit. */
    method PrintValue(c: NumberCodec, item: Item?, ghost t: Tree, ghost v: Content) returns (ok: bool)
      requires RendersCStrings(c) && Valid() && offset == |printed| && (item != null ==> Stands(item, t, v))
      modifies this, buffer
      ensures ok <==> item != null && Printable(c, JsonOf(v))
                      && old(|printed|) + |JsonText.PrintValue(c, JsonOf(v), format, old(depth))| + 2 <= old(Limit())
      ensures Valid() && Limit() == old(Limit()) && (buffer == old(buffer) || fresh(buffer))
      ensures ok ==> printed == old(printed) + JsonText.PrintValue(c, JsonOf(v), format, old(depth))
                     && Ended() && depth == old(depth) && old(|printed|) <= offset <= |printed|
      decreases v, 2
    {
      hide RendersCStrings, Valid, Ended, Literal, Stands;
      if item == null {
        return false;
      }
      RootStands(item, t, v);
      match item.kind {
        case NullKind => ok := Emit(5, NULL_TEXT, true, false);
        case FalseKind => ok := Emit(6, FALSE_TEXT, true, false);
        case TrueKind => ok := Emit(5, TRUE_TEXT, true, false);
        case NumberKind => ok := PrintNumber(c, item.valuedouble);
        case StringKind => ok := PrintStringPtr(item.valuestring);
        case ArrayKind => ok := PrintArray(c, item, t, v);
        case ObjectKind => ok := PrintObject(c, item, t, v);
      }
    }

    /** A value and the offset moved after it. */
    method PrintWhole(c: NumberCodec, item: Item?, ghost t: Tree, ghost v: Content) returns (ok: bool)
      requires RendersCStrings(c) && Valid() && offset == |printed| && (item != null ==> Stands(item, t, v))
      modifies this, buffer
      ensures ok <==> item != null && Printable(c, JsonOf(v))
                      && old(|printed|) + |JsonText.PrintValue(c, JsonOf(v), format, old(depth))| + 2 <= old(Limit())
      ensures Valid() && Limit() == old(Limit()) && (buffer == old(buffer) || fresh(buffer))
      ensures ok ==> printed == old(printed) + JsonText.PrintValue(c, JsonOf(v), format, old(depth))
                     && Ended() && depth == old(depth) && offset == |printed|
      decreases v, 3
    {
      hide RendersCStrings, Valid, Ended, Literal, JsonText.PrintValue, Printable, CStrings, Stands, JsonOf, Sound;
      if item != null {
        RootStands(item, t, v);
      }
      ok := PrintValue(c, item, t, v);
      if ok {
        SoundIsCStrings(v);
        TextHasNoNul(c, JsonOf(v), format, depth);
        UpdateOffset();
      }
    }

    /** An element and, unless it is the last, a separator. */
    method PrintElement(c: NumberCodec, item: Item, last: bool, ghost t: Tree, ghost v: Content) returns (ok: bool)
      requires RendersCStrings(c) && Valid() && offset == |printed| && Stands(item, t, v)
      modifies this, buffer
      ensures ok <==> Printable(c, JsonOf(v))
                      && old(|printed|) + |ElementText(c, JsonOf(v), last, format, old(depth))| + 2 <= old(Limit())
      ensures Valid() && Limit() == old(Limit()) && (buffer == old(buffer) || fresh(buffer))
      ensures ok ==> printed == old(printed) + ElementText(c, JsonOf(v), last, format, old(depth))
                     && depth == old(depth) && offset == |printed|
      decreases v, 4
    {
      hide RendersCStrings, Valid, Ended, Literal, JsonText.PrintValue, Printable, CStrings, Stands, JsonOf;
      ok := PrintWhole(c, item, t, v);
      if ok && !last {
        var length := if format then 2 else 1;
        ok := Emit(length + 1, ItemSeparator(format), true, true);
      }
    }

    /** The loop of `print_array`. */
    method PrintElements(c: NumberCodec, item: Item, ghost t: Tree, ghost v: Content, ghost said: seq<Byte>,
                         ghost text: seq<Byte>, ghost limit: nat) returns (ok: bool)
      requires RendersCStrings(c) && Valid() && offset == |printed| && Stands(item, t, v)
      requires printed == said && text == PrintItems(c, ItemsOf(v.kids), format, depth) && Limit() == limit
      modifies this, buffer
      ensures Valid() && Limit() == limit && (buffer == old(buffer) || fresh(buffer))
      ensures ok ==> AllPrintable(c, ItemsOf(v.kids))
      ensures ok ==> printed == said + text && depth == old(depth) && offset == |printed|
      ensures !ok && AllPrintable(c, ItemsOf(v.kids)) ==> |said| + |text| + 2 > limit
      decreases v, 0
    {
      hide RendersCStrings, Valid, Ended, Limit, PrintItems, Printable, ElementText, Stands, JsonOf, ItemsOf, Sound,
           Named, LabelOf;
      ok := true;
      ghost var items := ItemsOf(v.kids);
      ghost var goal := said + text;
      RootStands(item, t, v);
      var current := item.child;
      ghost var i := 0;
      while current != null
        invariant i <= |t.kids| && current == At(Roots(t.kids), i) && Stands(item, t, v)
        invariant ok && depth == old(depth) && Valid() && offset == |printed|
        invariant Limit() == limit && (buffer == old(buffer) || fresh(buffer))
        invariant printed + PrintItems(c, items[i..], format, depth) == goal
        invariant forall k :: 0 <= k < i ==> Printable(c, items[k])
        decreases |t.kids| - i
      {
        KidStands(item, t, v, i);
        assert allocated(t.below);
        ghost var before, piece := printed, ElementText(c, items[i], i == |items| - 1, format, depth);
        ItemsStep(c, items, i, format, depth);
        Associates(before, piece, PrintItems(c, items[i + 1..], format, depth));
        var last := current.next == null;
        ok := PrintElement(c, current, last, t.kids[i], v.kids[i]);
        if !ok {
          return;
        }
        KidStands(item, t, v, i);
        current := current.next;
        i := i + 1;
      }
      NoItemsLeft(c, items, i, format, depth);
    }

    method PrintArray(c: NumberCodec, item: Item, ghost t: Tree, ghost v: Content) returns (ok: bool)
      requires RendersCStrings(c) && Valid() && offset == |printed| && Stands(item, t, v) && v.says.kind == ArrayKind
      modifies this, buffer
      ensures ok <==> Printable(c, JsonOf(v))
                      && old(|printed|) + |JsonText.PrintValue(c, JsonOf(v), format, old(depth))| + 2 <= old(Limit())
      ensures Valid() && Limit() == old(Limit()) && (buffer == old(buffer) || fresh(buffer))
      ensures ok ==> printed == old(printed) + JsonText.PrintValue(c, JsonOf(v), format, old(depth))
                     && Ended() && depth == old(depth) && old(|printed|) <= offset <= |printed|
      decreases v, 1
    {
      hide *;
      ghost var said, limit, level := printed, Limit(), depth;
      ghost var inner := PrintItems(c, ItemsOf(v.kids), format, level + 1);
      ArrayUnfolds(c, v, format, depth);
      Regroup(said, [OPEN_BRACKET], inner, [CLOSE_BRACKET]);
      assert allocated(t.below);
      ok := Open(1, [OPEN_BRACKET], said, limit);
      if !ok {
        return;
      }
      ok := PrintElements(c, item, t, v, said + [OPEN_BRACKET], inner, limit);
      if !ok {
        return;
      }
      ok := Close(2, [CLOSE_BRACKET], said + [OPEN_BRACKET] + inner, limit);
    }

    /** Indentation, key and colon. */
    method PrintKey(name: seq<Byte>) returns (ok: bool)
      requires Valid() && offset == |printed| && 0 !in name
      modifies this`buffer, this`offset, this`printed, buffer
      ensures Valid() && Limit() == old(Limit()) && (buffer == old(buffer) || fresh(buffer))
      ensures ok ==> printed == old(printed) + KeyText(name, format, depth) && offset == |printed|
      ensures !ok ==> old(|printed|) + |KeyText(name, format, depth)| + 1 > Limit()
    {
      hide RendersCStrings, Valid, Ended, Limit, Literal, Tabs;
      Regroup(printed, If(format, Tabs(depth)), Literal(name), [COLON] + If(format, [TAB]));
      if format {
        ok := Emit(depth, Tabs(depth), false, true);
        if !ok {
          return;
        }
      }
      ok := PrintStringPtr(name);
      if !ok {
        return;
      }
      LiteralHasNoNul(name);
      UpdateOffset();
      var length := if format then 2 else 1;
      ok := Emit(length, [COLON] + If(format, [TAB]), false, true);
    }

    /** One member: indentation, key, colon, value, comma unless it is the last, and line end. */
    method PrintMember(c: NumberCodec, item: Item, last: bool, ghost t: Tree, ghost v: Content, ghost m: Member)
      returns (ok: bool)
      requires RendersCStrings(c) && Valid() && offset == |printed| && Stands(item, t, v) && Named(v)
      requires v.says == LabelOf(item) && m == Member(NameOf(v), JsonOf(v))
      modifies this, buffer
      ensures ok <==> Printable(c, m.value)
                      && old(|printed|) + |JsonText.PrintMember(c, m, last, format, old(depth))| + 2 <= old(Limit())
      ensures Valid() && Limit() == old(Limit()) && (buffer == old(buffer) || fresh(buffer))
      ensures ok ==> printed == old(printed) + JsonText.PrintMember(c, m, last, format, old(depth))
                     && depth == old(depth) && offset == |printed|
      decreases v, 4
    {
      assert item.name.Some? && item.name.value == m.name && 0 !in m.name;
      hide *;
      ghost var text := JsonText.PrintValue(c, m.value, format, depth);
      MemberUnfolds(c, m, last, format, depth);
      Regroup(printed, KeyText(m.name, format, depth), text, MemberEnd(last, format));
      assert allocated(t.below);
      ok := PrintKey(item.name.value);
      if !ok {
        return;
      }
      ok := PrintWhole(c, item, t, v);
      if !ok {
        return;
      }
      var length := (if format then 1 else 0) + (if last then 0 else 1);
      ok := Emit(length + 1, MemberEnd(last, format), true, true);
    }

    /** The loop of `print_object`. */
    method PrintMembers(c: NumberCodec, item: Item, ghost t: Tree, ghost v: Content, ghost said: seq<Byte>,
                         ghost text: seq<Byte>, ghost limit: nat) returns (ok: bool)
      requires RendersCStrings(c) && Valid() && offset == |printed| && Stands(item, t, v) && v.says.kind == ObjectKind
      requires printed == said && text == JsonText.PrintMembers(c, MembersOf(v.kids), format, depth) && Limit() == limit
      modifies this, buffer
      ensures Valid() && Limit() == limit && (buffer == old(buffer) || fresh(buffer))
      ensures ok ==> MembersPrintable(c, MembersOf(v.kids))
      ensures ok ==> printed == said + text && depth == old(depth) && offset == |printed|
      ensures !ok && MembersPrintable(c, MembersOf(v.kids)) ==> |said| + |text| + 2 > limit
      decreases v, 0
    {
      hide RendersCStrings, Valid, Ended, Limit, Printable, JsonText.PrintMember, JsonText.PrintMembers, Stands, JsonOf,
           Named, MembersOf, Sound, LabelOf, NameOf, Roots, KeyText, Literal, Tabs;
      ok := true;
      ghost var members := MembersOf(v.kids);
      ghost var goal := said + text;
      RootStands(item, t, v);
      var current := item.child;
      ghost var i := 0;
      while current != null
        invariant i <= |t.kids| && current == At(Roots(t.kids), i) && Stands(item, t, v)
        invariant ok && depth == old(depth) && Valid() && offset == |printed|
        invariant Limit() == limit && (buffer == old(buffer) || fresh(buffer))
        invariant printed + JsonText.PrintMembers(c, members[i..], format, depth) == goal
        invariant forall k :: 0 <= k < i ==> Printable(c, members[k].value)
        decreases |t.kids| - i
      {
        KidStands(item, t, v, i);
        assert allocated(t.below);
        ghost var before, piece := printed, JsonText.PrintMember(c, members[i], i == |members| - 1, format, depth);
        MembersStep(c, members, i, format, depth);
        Associates(before, piece, JsonText.PrintMembers(c, members[i + 1..], format, depth));
        var last := current.next == null;
        ok := PrintMember(c, current, last, t.kids[i], v.kids[i], members[i]);
        if !ok {
          return;
        }
        KidStands(item, t, v, i);
        current := current.next;
        i := i + 1;
      }
      NoMembersLeft(c, members, i, format, depth);
    }

    method PrintObject(c: NumberCodec, item: Item, ghost t: Tree, ghost v: Content) returns (ok: bool)
      requires RendersCStrings(c) && Valid() && offset == |printed| && Stands(item, t, v) && v.says.kind == ObjectKind
      modifies this, buffer
      ensures ok <==> Printable(c, JsonOf(v))
                      && old(|printed|) + |JsonText.PrintValue(c, JsonOf(v), format, old(depth))| + 2 <= old(Limit())
      ensures Valid() && Limit() == old(Limit()) && (buffer == old(buffer) || fresh(buffer))
      ensures ok ==> printed == old(printed) + JsonText.PrintValue(c, JsonOf(v), format, old(depth))
                     && Ended() && depth == old(depth) && old(|printed|) <= offset <= |printed|
      decreases v, 1
    {
      hide *;
      ghost var said, limit, level := printed, Limit(), depth;
      ghost var inner := JsonText.PrintMembers(c, MembersOf(v.kids), format, level + 1);
      ObjectUnfolds(c, v, format, depth);
      Regroup(said, ObjectStart(format), inner, ObjectEnd(format, level));
      assert allocated(t.below);
      ok := Open(if format then 3 else 2, ObjectStart(format), said, limit);
      if !ok {
        return;
      }
      ok := PrintMembers(c, item, t, v, said + ObjectStart(format), inner, limit);
      if !ok {
        return;
      }
      ok := Close(if format then depth + 1 else 2, ObjectEnd(format, depth - 1), said + ObjectStart(format) + inner,
              limit);
    }
  }

  function ElementText(c: NumberCodec, j: Json, last: bool, format: bool, depth: nat): seq<Byte> {
    PrintValue(c, j, format, depth) + (if last then [] else ItemSeparator(format))
  }

  function KeyText(name: seq<Byte>, format: bool, depth: nat): seq<Byte> {
    If(format, Tabs(depth)) + Literal(name) + ([COLON] + If(format, [TAB]))
  }

  function MemberEnd(last: bool, format: bool): (s: seq<Byte>)
    ensures |s| == (if format then 1 else 0) + (if last then 0 else 1)
  {
    If(!last, [COMMA]) + If(format, [NEWLINE])
  }

  function ObjectStart(format: bool): (s: seq<Byte>)
    ensures |s| == if format then 2 else 1
  {
    [OPEN_BRACE] + If(format, [NEWLINE])
  }

  function ObjectEnd(format: bool, depth: nat): (s: seq<Byte>)
    ensures |s| == if format then depth + 1 else 1
  {
    If(format, Tabs(depth)) + [CLOSE_BRACE]
  }

  lemma Associates(a: seq<Byte>, b: seq<Byte>, d: seq<Byte>)
    ensures a + (b + d) == a + b + d
  {}

  lemma Regroup(before: seq<Byte>, a: seq<Byte>, b: seq<Byte>, d: seq<Byte>)
    ensures before + (a + b + d) == before + a + b + d
  {}

  lemma ArrayUnfolds(c: NumberCodec, v: Content, format: bool, depth: nat)
    requires v.says.kind == ArrayKind
    ensures Printable(c, JsonOf(v)) <==> AllPrintable(c, ItemsOf(v.kids))
    ensures PrintValue(c, JsonOf(v), format, depth)
            == [OPEN_BRACKET] + PrintItems(c, ItemsOf(v.kids), format, depth + 1) + [CLOSE_BRACKET]
  {
    assert JsonOf(v) == Array(ItemsOf(v.kids));
    hide JsonOf;
  }

  lemma ItemsStep(c: NumberCodec, items: seq<Json>, i: nat, format: bool, depth: nat)
    requires i < |items|
    ensures PrintItems(c, items[i..], format, depth)
            == ElementText(c, items[i], i == |items| - 1, format, depth) + PrintItems(c, items[i + 1..], format, depth)
  {
    assert items[i..][1..] == items[i + 1..];
  }

  lemma NoItemsLeft(c: NumberCodec, items: seq<Json>, i: nat, format: bool, depth: nat)
    requires i == |items|
    ensures PrintItems(c, items[i..], format, depth) == []
  {}

  lemma MemberUnfolds(c: NumberCodec, m: Member, last: bool, format: bool, depth: nat)
    ensures PrintMember(c, m, last, format, depth)
            == KeyText(m.name, format, depth) + PrintValue(c, m.value, format, depth) + MemberEnd(last, format)
  {
    hide Literal, Tabs, PrintValue;
  }

  lemma MembersStep(c: NumberCodec, members: seq<Member>, i: nat, format: bool, depth: nat)
    requires i < |members|
    ensures PrintMembers(c, members[i..], format, depth)
            == PrintMember(c, members[i], i == |members| - 1, format, depth)
               + PrintMembers(c, members[i + 1..], format, depth)
  {
    assert members[i..][1..] == members[i + 1..];
  }

  lemma NoMembersLeft(c: NumberCodec, members: seq<Member>, i: nat, format: bool, depth: nat)
    requires i == |members|
    ensures PrintMembers(c, members[i..], format, depth) == []
  {}

  lemma ObjectUnfolds(c: NumberCodec, v: Content, format: bool, depth: nat)
    requires v.says.kind == ObjectKind
    ensures Printable(c, JsonOf(v)) <==> MembersPrintable(c, MembersOf(v.kids))
    ensures PrintValue(c, JsonOf(v), format, depth)
            == ObjectStart(format) + PrintMembers(c, MembersOf(v.kids), format, depth + 1) + ObjectEnd(format, depth)
  {
    hide Tabs, PrintMembers;
    assert JsonOf(v) == Object(MembersOf(v.kids));
    hide JsonOf;
  }

  // ----- Entry points -----

  const DEFAULT_BUFFER_SIZE: nat := 256

  /** The text of a tree that the printer agrees to print within `limit` bytes, one more than text and NUL need. */
  predicate Fits(c: NumberCodec, j: Json, format: bool, limit: nat) {
    Printable(c, j) && |PrintValue(c, j, format, 0)| + 2 <= limit
  }

  lemma {:induction false} CStringOfBuffer(text: seq<Byte>, slack: seq<Byte>)
    requires 0 !in text
    ensures CString(text + [0] + slack) == text
  {
    var all := text + [0] + slack;
    if text != [] {
      assert all[1..] == text[1..] + [0] + slack;
      CStringOfBuffer(text[1..], slack);
    }
  }

  /** The text in an allocation of its own, NUL included. */
  method ExactCopy(bytes: array<Byte>, length: nat) returns (copied: array<Byte>)
    requires length < bytes.Length
    ensures fresh(copied) && copied[..] == bytes[..length] + [0]
  {
    copied := new Byte[length + 1];
    for i := 0 to length
      invariant copied[..i] == bytes[..i]
    {
      copied[i] := bytes[i];
    }
    copied[length] := 0;
    assert copied[..length] == bytes[..length];
  }

  /** `print`: into a growing buffer, then into an allocation of the exact size. */
  method Print(c: NumberCodec, item: Item?, format: bool, ghost t: Tree, ghost v: Content)
    returns (printed: array?<Byte>)
    requires RendersCStrings(c) && (item != null ==> Stands(item, t, v))
    ensures printed != null <==> item != null && Fits(c, JsonOf(v), format, 0x7FFF_FFFF)
    ensures printed != null ==> fresh(printed) && printed[..] == PrintValue(c, JsonOf(v), format, 0) + [0]
  {
    hide RendersCStrings, CStrings, Printable, PrintValue, Stands, JsonOf;
    assert allocated(t.below);
    var bytes := new Byte[DEFAULT_BUFFER_SIZE];
    var p := new PrintBuffer(bytes, false, format);
    var ok := p.PrintWhole(c, item, t, v);
    if !ok {
      return null;
    }
    printed := ExactCopy(p.buffer, p.offset);
  }

  /** `cJSON_PrintBuffered`: whatever size the caller guesses, the same text as `Print`, or none just when `Print`
      gives none. */
  method PrintBuffered(c: NumberCodec, item: Item?, prebuffer: int, format: bool, ghost t: Tree, ghost v: Content)
    returns (printed: array?<Byte>)
    requires RendersCStrings(c) && (item != null ==> Stands(item, t, v)) && prebuffer <= INT_MAX
    ensures printed != null <==> item != null && prebuffer >= 0 && Fits(c, JsonOf(v), format, 0x7FFF_FFFF)
    ensures printed != null ==> fresh(printed) && CString(printed[..]) == PrintValue(c, JsonOf(v), format, 0)
  {
    hide RendersCStrings, CStrings, Printable, PrintValue, Stands, JsonOf, Sound;
    if prebuffer < 0 {
      return null;
    }
    if item != null {
      RootStands(item, t, v);
    }
    assert allocated(t.below);
    var bytes := new Byte[prebuffer];
    var p := new PrintBuffer(bytes, false, format);
    var ok := p.PrintValue(c, item, t, v);
    if !ok {
      return null;
    }
    printed := p.buffer;
    SoundIsCStrings(v);
    TextInBuffer(c, JsonOf(v), format, printed[..]);
  }

  /** `cJSON_PrintPreallocated`: it succeeds exactly when the caller's buffer has a byte more than text and NUL need. */
  method PrintPreallocated(c: NumberCodec, item: Item?, bytes: array<Byte>, format: bool, ghost t: Tree,
                           ghost v: Content)
    returns (ok: bool)
    requires RendersCStrings(c) && (item != null ==> Stands(item, t, v)) && bytes.Length <= INT_MAX
    modifies bytes
    ensures ok <==> item != null && Fits(c, JsonOf(v), format, bytes.Length)
    ensures ok ==> CString(bytes[..]) == PrintValue(c, JsonOf(v), format, 0)
  {
    hide RendersCStrings, CStrings, Printable, PrintValue, Stands, JsonOf, Sound;
    if item != null {
      RootStands(item, t, v);
    }
    assert allocated(t.below);
    var p := new PrintBuffer(bytes, true, format);
    ok := p.PrintValue(c, item, t, v);
    if ok {
      SoundIsCStrings(v);
      TextInBuffer(c, JsonOf(v), format, bytes[..]);
    }
  }

  lemma TextInBuffer(c: NumberCodec, j: Json, format: bool, bytes: seq<Byte>)
    requires RendersCStrings(c) && CStrings(j)
    requires var text := PrintValue(c, j, format, 0);
             |text| < |bytes| && bytes[..|text|] == text && bytes[|text|] == 0
    ensures CString(bytes) == PrintValue(c, j, format, 0)
  {
    hide PrintValue, CStrings, RendersCStrings;
    var text := PrintValue(c, j, format, 0);
    TextHasNoNul(c, j, format, 0);
    assert bytes == bytes[..|text|] + [0] + bytes[|text| + 1..];
    CStringOfBuffer(text, bytes[|text| + 1..]);
  }
}
