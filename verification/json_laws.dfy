/** What printing, parsing, comparing and duplicating linked trees promise together (fern/cJSON.c). */
module JsonLaws {
  import opened Bits
  import opened JsonAlike
  import opened JsonCompare
  import opened JsonItems
  import opened JsonMeaning
  import opened JsonText
  import opened JsonTrees
  import opened JsonValues
  import JsonDuplicate
  import JsonParser
  import JsonPrinter
  import JsonRoundTrip

  // ----- Comparing -----

  /** A duplicate is compared with its original: they are found equal if and only if no object repeats a key for
      different values, so always if keys are distinct. */
  method DuplicateThenCompare(item: Item, caseSensitive: bool, ghost t: Tree, ghost v: Content)
    returns (copy: Item, equal: bool, ghost t': Tree)
    requires Stands(item, t, v)
    ensures Stands(copy, t', v) && Detached(copy) && fresh(copy) && fresh(t'.below)
    ensures equal <==> Consistent(JsonOf(v), caseSensitive)
    ensures DistinctKeys(JsonOf(v), caseSensitive) ==> equal
  {
    StandsIs(item, t, v);
    hide *;
    assert allocated(t.below);
    var made;
    made, t' := JsonDuplicate.Duplicate(item, true, t, v);
    copy := made;
    StandsIs(copy, t', v);
    Apart(t', t);
    equal := Compare(copy, item, caseSensitive, t', t, v, v);
    SameAsItself(v, caseSensitive);
  }

  lemma Apart(a: Tree, b: Tree)
    requires a.root != b.root && a.root !in b.below && b.root !in a.below && a.below !! b.below
    ensures forall ca, cb, caseSensitive :: Comparable(a, b, ca, cb, caseSensitive)
  {}

  lemma SameAsItself(v: Content, caseSensitive: bool)
    ensures Same(JsonOf(v), JsonOf(v), caseSensitive) <==> Consistent(JsonOf(v), caseSensitive)
    ensures DistinctKeys(JsonOf(v), caseSensitive) ==> Consistent(JsonOf(v), caseSensitive)
  {
    hide JsonOf, Consistent, MeaningOf, DistinctKeys;
    if DistinctKeys(JsonOf(v), caseSensitive) {
      DistinctIsConsistent(JsonOf(v), caseSensitive);
    }
  }

  /** The answers for three trees, whatever they share: the comparison is symmetric and transitive, and every item is
      equal to itself. */
  method CompareThree(a: Item, b: Item, c: Item, caseSensitive: bool, ghost ta: Tree, ghost tb: Tree, ghost tc: Tree,
                      ghost va: Content, ghost vb: Content, ghost vc: Content)
    returns (aa: bool, ab: bool, ba: bool, bc: bool, ac: bool)
    requires Stands(a, ta, va) && Stands(b, tb, vb) && Stands(c, tc, vc)
    ensures aa && ab == ba && (ab && bc ==> ac)
  {
    hide Stands, Paired, Same, MeansSame, Comparable, JsonOf;
    RootStands(a, ta, va);
    aa := Compare(a, a, caseSensitive, ta, ta, va, va);
    ab := Compare(a, b, caseSensitive, ta, tb, va, vb);
    ba := Compare(b, a, caseSensitive, tb, ta, vb, va);
    bc := Compare(b, c, caseSensitive, tb, tc, vb, vc);
    ac := Compare(a, c, caseSensitive, ta, tc, va, vc);
    AlikeIsSymmetric(ta, tb, va, vb, caseSensitive);
    if ab && bc {
      AlikeIsTransitive(a, b, c, ta, tb, tc, va, vb, vc, caseSensitive);
    }
  }

  /** Whatever the key, a linked object that has it twice, for null and for true, is not found equal to its
      duplicate. */
  method RepeatedKeyThenCompare(item: Item, key: seq<Byte>, caseSensitive: bool, ghost t: Tree, ghost v: Content)
    returns (equal: bool)
    requires Stands(item, t, v) && JsonOf(v) == Object([Member(key, Null), Member(key, True)])
    ensures !equal
  {
    hide Stands, JsonOf, Consistent;
    NullThenTrue([Member(key, Null), Member(key, True)], caseSensitive);
    var copy;
    ghost var t';
    copy, equal, t' := DuplicateThenCompare(item, caseSensitive, t, v);
  }

  /** Two arrays that share an element are found equal, even where it is not the same as itself. */
  method SharedElementThenCompare(a: Item, b: Item, caseSensitive: bool, ghost ta: Tree, ghost tb: Tree,
                                  ghost va: Content, ghost vb: Content)
    returns (equal: bool)
    requires Stands(a, ta, va) && Stands(b, tb, vb) && va.says.kind == vb.says.kind == ArrayKind
    requires |va.kids| == |vb.kids| == 1 && a.child == b.child
    ensures equal
    ensures Same(JsonOf(va), JsonOf(vb), caseSensitive) <==> Consistent(JsonOf(va.kids[0]), caseSensitive)
  {
    hide Stands, JsonOf, Consistent, Same, Alike;
    SharedElement(a, b, ta, tb, va, vb, caseSensitive);
    equal := Compare(a, b, caseSensitive, ta, tb, va, vb);
  }

  // ----- Printing and parsing -----

  lemma {:induction false} WellFormedIsPrintable(c: NumberCodec, j: Json)
    requires JsonRoundTrip.WellFormed(c, j)
    ensures JsonPrinter.Printable(c, j)
  {
    match j
    case Array(items) =>
      forall i | 0 <= i < |items|
        ensures JsonPrinter.Printable(c, items[i])
      {
        WellFormedIsPrintable(c, items[i]);
      }
    case Object(members) =>
      forall i | 0 <= i < |members|
        ensures JsonPrinter.Printable(c, members[i].value)
      {
        assert JsonRoundTrip.WellFormedMember(c, members[i]);
        WellFormedIsPrintable(c, members[i].value);
      }
    case _ =>
  }

  /** Prints a tree, parses the text and compares the new tree with the old one: a tree comes back if and only if the
      text fits and the nesting is within the parser's limit. It is made of new items and stands for the same value,
      and it compares equal if and only if no object repeats a key for different values. */
  method PrintThenParse(c: NumberCodec, item: Item, format: bool, requireTerminated: bool, caseSensitive: bool,
                        ghost t: Tree, ghost v: Content)
    returns (copy: Item?, equal: bool, ghost t': Tree, ghost v': Content)
    requires Stands(item, t, v) && JsonPrinter.RendersCStrings(c) && JsonRoundTrip.WellFormed(c, JsonOf(v))
    ensures copy != null <==> |PrintValue(c, JsonOf(v), format, 0)| + 2 <= 0x7FFF_FFFF
                              && Nesting(JsonOf(v)) <= 1000
    ensures copy != null ==> Stands(copy, t', v') && JsonOf(v') == JsonOf(v) && fresh(copy) && fresh(t'.below)
    ensures copy != null ==> (equal <==> Consistent(JsonOf(v), caseSensitive))
  {
    hide *;
    t', v' := t, v;
    copy, equal := null, false;
    assert allocated(t.below);
    ghost var j := JsonOf(v);
    RootStands(item, t, v);
    ValueFits(c, j, format);
    JsonRoundTrip.PrintedTextParses(c, j, format, requireTerminated);
    var printed := JsonPrinter.Print(c, item, format, t, v);
    if printed == null {
      return;
    }
    var length := printed.Length - 1;
    var text := printed[..length];
    assert text == PrintValue(c, j, format, 0);
    var end;
    copy, end, t', v' := JsonParser.ParseWithOpts(c, text, requireTerminated);
    if copy != null {
      RootStands(copy, t', v');
      Apart(t', t);
      equal := Compare(copy, item, caseSensitive, t', t, v', v);
      SameAsItself(v', caseSensitive);
    }
  }

  lemma ValueFits(c: NumberCodec, j: Json, format: bool)
    requires JsonRoundTrip.WellFormed(c, j)
    ensures JsonPrinter.Fits(c, j, format, 0x7FFF_FFFF)
            <==> |PrintValue(c, j, format, 0)| + 2 <= 0x7FFF_FFFF
  {
    WellFormedIsPrintable(c, j);
  }
}
