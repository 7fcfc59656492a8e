/** Key lookup and `cJSON_Compare` of fern/cJSON.c, walking the links of items. */
module JsonCompare {
  import opened Bits
  import opened JsonAlike
  import opened JsonItems
  import opened JsonMeaning
  import opened JsonText
  import opened JsonTrees
  import opened JsonValues
  import opened Options

  // ----- Lookup -----

  /** `case_insensitive_strcmp`. */
  method CaseInsensitiveStrcmp(string1: seq<Byte>, string2: seq<Byte>) returns (order: int)
    requires 0 !in string1 && 0 !in string2
    ensures order == 0 <==> Lowered(string1) == Lowered(string2)
    ensures order < 0 <==> Precedes(Lowered(string1), Lowered(string2))
    ensures order > 0 <==> Precedes(Lowered(string2), Lowered(string1))
  {
    hide Precedes, Lowered;
    var s1, s2 := string1 + [0], string2 + [0];
    var i := 0;
    while Lower(s1[i]) == Lower(s2[i])
      invariant i <= |string1| && i <= |string2|
      invariant forall k :: 0 <= k < i ==> Lower(string1[k]) == Lower(string2[k])
      decreases |string1| - i
    {
      if s1[i] == 0 {
        NotBeforeItself(Lowered(string1));
        return 0;
      }
      i := i + 1;
    }
    var l1: int, l2: int := Lower(s1[i]), Lower(s2[i]);
    order := l1 - l2;
    ghost var a, b := Lowered(string1), Lowered(string2);
    assert i < |a| ==> a[i] == Lower(s1[i]) > 0;
    assert i < |b| ==> b[i] == Lower(s2[i]) > 0;
    assert a[..i] == b[..i];
    FirstDifference(a, b, i);
    FirstDifference(b, a, i);
  }

  /** Alphabetical order. */
  predicate Precedes(a: seq<Byte>, b: seq<Byte>) {
    b != [] && (a == [] || a[0] < b[0] || (a[0] == b[0] && Precedes(a[1..], b[1..])))
  }

  lemma {:induction false} NotBeforeItself(a: seq<Byte>)
    ensures !Precedes(a, a)
  {
    if a != [] {
      NotBeforeItself(a[1..]);
    }
  }

  lemma {:induction false} FirstDifference(a: seq<Byte>, b: seq<Byte>, i: nat)
    requires i <= |a| && i <= |b| && a[..i] == b[..i] && (i < |a| || i < |b|)
    requires i < |a| && i < |b| ==> a[i] != b[i]
    ensures Precedes(a, b) <==> i < |b| && (i == |a| || a[i] < b[i])
  {
    if i > 0 {
      assert a[0] == a[..i][0] == b[..i][0] == b[0];
      assert a[1..][..i - 1] == a[..i][1..] == b[..i][1..] == b[1..][..i - 1];
      FirstDifference(a[1..], b[1..], i - 1);
    }
  }

  /** The test of a name against a key, in either mode. */
  method IsKey(name: seq<Byte>, key: seq<Byte>, caseSensitive: bool) returns (same: bool)
    requires 0 !in name && 0 !in key
    ensures same <==> KeyOf(name, caseSensitive) == KeyOf(key, caseSensitive)
  {
    if caseSensitive {
      same := name == key;
    } else {
      var order := CaseInsensitiveStrcmp(name, key);
      same := order == 0;
    }
  }

  /** `get_object_item`: the first member with the key. */
  method GetObjectItem(parent: Item, name: seq<Byte>, caseSensitive: bool, ghost t: Tree, ghost c: Content)
    returns (r: Item?, ghost k: nat)
    requires Stands(parent, t, c) && c.says.kind == ObjectKind && 0 !in name
    ensures r == match FirstWith(MembersOf(c.kids), KeyOf(name, caseSensitive), caseSensitive)
                 case None => null
                 case Some(i) => At(Roots(t.kids), i)
    ensures r != null ==>
              FirstWith(MembersOf(c.kids), KeyOf(name, caseSensitive), caseSensitive) == Some(k) && k < |t.kids|
  {
    hide Stands, KeyOf, JsonOf, MembersOf;
    RootStands(parent, t, c);
    r := parent.child;
    k := 0;
    ghost var members := MembersOf(c.kids);
    while r != null
      invariant k <= |t.kids| && r == At(Roots(t.kids), k) && Stands(parent, t, c)
      invariant forall j :: 0 <= j < k ==> KeyOf(members[j].name, caseSensitive) != KeyOf(name, caseSensitive)
      decreases |t.kids| - k
    {
      KidStands(parent, t, c, k);
      assert r.name == c.kids[k].says.name && r.name.value == members[k].name;
      assert allocated(t.below);
      var same := IsKey(name, r.name.value, caseSensitive);
      if same {
        FirstIsFirst(members, k, KeyOf(name, caseSensitive), caseSensitive);
        return;
      }
      KidStands(parent, t, c, k);
      r := r.next;
      k := k + 1;
    }
  }

  lemma FirstIsFirst(members: seq<Member>, k: nat, key: seq<Byte>, caseSensitive: bool)
    requires k < |members| && KeyOf(members[k].name, caseSensitive) == key
    requires forall j :: 0 <= j < k ==> KeyOf(members[j].name, caseSensitive) != key
    ensures FirstWith(members, key, caseSensitive) == Some(k)
  {}

  // ----- Comparison -----

  /** `cJSON_Compare`, on all linked trees: identical items are equal, and so are trees that say the same; what is equal
      has the same meaning, and it says the same unless different items share children. */
  method Compare(a: Item?, b: Item?, caseSensitive: bool, ghost ta: Tree, ghost tb: Tree, ghost ca: Content,
                 ghost cb: Content)
    returns (equal: bool)
    requires a != null ==> Stands(a, ta, ca)
    requires b != null ==> Stands(b, tb, cb)
    ensures a == null || b == null ==> !equal
    ensures a != null && b != null ==> Paired(ta, ca) && Paired(tb, cb)
    ensures a != null && b != null ==> (equal <==> Alike(ta, tb, ca, cb, caseSensitive))
    ensures a != null && b != null && Same(JsonOf(ca), JsonOf(cb), caseSensitive) ==> equal
    ensures equal ==> MeansSame(JsonOf(ca), JsonOf(cb), caseSensitive)
    ensures equal && Comparable(ta, tb, ca, cb, caseSensitive) ==>
              a == b || Same(JsonOf(ca), JsonOf(cb), caseSensitive)
    decreases Size(JsonOf(ca)) + Size(JsonOf(cb)), 2
  {
    hide Stands, Size, Paired, Same, MeansSame, Comparable;
    if a == null || b == null {
      return false;
    }
    StandsIsPaired(a, ta, ca);
    StandsIsPaired(b, tb, cb);
    WhatAlikeMeans(a, b, ta, tb, ca, cb, caseSensitive);
    RootStands(a, ta, ca);
    RootStands(b, tb, cb);
    if a.kind != b.kind {
      return a == b;
    }
    if a == b {
      return true;
    }
    match a.kind {
      case NullKind | FalseKind | TrueKind => equal := true;
      case NumberKind => equal := a.valuedouble == b.valuedouble;
      case StringKind => equal := a.valuestring == b.valuestring;
      case ArrayKind => equal := CompareElements(a, b, caseSensitive, ta, tb, ca, cb);
      case ObjectKind => equal := CompareMembers(a, b, caseSensitive, ta, tb, ca, cb);
    }
  }

  /** The two walks over objects. */
  method CompareMembers(a: Item, b: Item, caseSensitive: bool, ghost ta: Tree, ghost tb: Tree, ghost ca: Content,
                        ghost cb: Content)
    returns (equal: bool)
    requires Stands(a, ta, ca) && Stands(b, tb, cb) && ca.says.kind == cb.says.kind == ObjectKind && a != b
    ensures Paired(ta, ca) && Paired(tb, cb) && (equal <==> Alike(ta, tb, ca, cb, caseSensitive))
    decreases Size(JsonOf(ca)) + Size(JsonOf(cb)), 1, 1
  {
    hide Stands, Size, Paired, Alike;
    StandsIsPaired(a, ta, ca);
    StandsIsPaired(b, tb, cb);
    RootStands(a, ta, ca);
    RootStands(b, tb, cb);
    ObjectsAlike(ta, tb, ca, cb, caseSensitive);
    assert allocated(ta.below) && allocated(tb.below);
    equal := FoundIn(a, b, caseSensitive, ta, tb, ca, cb);
    if equal {
      equal := FoundIn(b, a, caseSensitive, tb, ta, cb, ca);
    }
  }

  /** The walk over two arrays. */
  method CompareElements(a: Item, b: Item, caseSensitive: bool, ghost ta: Tree, ghost tb: Tree, ghost ca: Content,
                         ghost cb: Content)
    returns (equal: bool)
    requires Stands(a, ta, ca) && Stands(b, tb, cb) && ca.says.kind == cb.says.kind == ArrayKind && a != b
    ensures Paired(ta, ca) && Paired(tb, cb) && (equal <==> Alike(ta, tb, ca, cb, caseSensitive))
    decreases Size(JsonOf(ca)) + Size(JsonOf(cb)), 1, 0
  {
    hide Stands, Paired, Size, Alike, AlikeAt, JsonOf, Sound, LabelOf, Roots;
    StandsIsPaired(a, ta, ca);
    StandsIsPaired(b, tb, cb);
    RootStands(a, ta, ca);
    RootStands(b, tb, cb);
    ArraysAlike(ta, tb, ca, cb, caseSensitive);
    var aElement, bElement := a.child, b.child;
    ghost var k := 0;
    while aElement != null && bElement != null
      invariant k <= |ta.kids| && aElement == At(Roots(ta.kids), k)
      invariant k <= |tb.kids| && bElement == At(Roots(tb.kids), k)
      invariant Stands(a, ta, ca) && Stands(b, tb, cb)
      invariant forall j :: 0 <= j < k ==> AlikeAt(ta, tb, ca, cb, j, caseSensitive)
      decreases |ta.kids| - k
    {
      KidStands(a, ta, ca, k);
      KidStands(b, tb, cb, k);
      ElementIsSmaller(ca, k);
      ElementIsSmaller(cb, k);
      AtIs(ta, tb, ca, cb, k, caseSensitive);
      assert allocated(ta.below) && allocated(tb.below);
      equal := Compare(aElement, bElement, caseSensitive, ta.kids[k], tb.kids[k], ca.kids[k], cb.kids[k]);
      if !equal {
        return;
      }
      KidStands(a, ta, ca, k);
      KidStands(b, tb, cb, k);
      aElement := aElement.next;
      bElement := bElement.next;
      k := k + 1;
    }
    equal := aElement == bElement;
  }

  /** One of the two walks over objects: every member of `a` is alike the first of its key in `b`. */
  method FoundIn(a: Item, b: Item, caseSensitive: bool, ghost ta: Tree, ghost tb: Tree, ghost ca: Content,
                 ghost cb: Content)
    returns (found: bool)
    requires Stands(a, ta, ca) && Stands(b, tb, cb) && ca.says.kind == cb.says.kind == ObjectKind
    ensures Paired(ta, ca) && Paired(tb, cb)
    ensures found <==> forall i :: 0 <= i < |ca.kids| ==> AlikeFirst(ta, tb, ca, cb, i, caseSensitive)
    decreases Size(JsonOf(ca)) + Size(JsonOf(cb)), 1, 0
  {
    hide Stands, Paired, Size, KeyOf, FirstWith, Alike, AlikeFirst, FirstOf, JsonOf, Sound, Roots;
    StandsIsPaired(a, ta, ca);
    StandsIsPaired(b, tb, cb);
    RootStands(a, ta, ca);
    RootStands(b, tb, cb);
    var aElement := a.child;
    ghost var k := 0;
    while aElement != null
      invariant k <= |ta.kids| && aElement == At(Roots(ta.kids), k)
      invariant Stands(a, ta, ca) && Stands(b, tb, cb)
      invariant forall j :: 0 <= j < k ==> AlikeFirst(ta, tb, ca, cb, j, caseSensitive)
      decreases |ta.kids| - k
    {
      KidStands(a, ta, ca, k);
      assert aElement.name == ca.kids[k].says.name && aElement.name.value == NameOf(ca.kids[k]);
      assert allocated(ta.below) && allocated(tb.below);
      var bElement, place := GetObjectItem(b, aElement.name.value, caseSensitive, tb, cb);
      FirstIs(ta, tb, ca, cb, k, caseSensitive);
      if bElement == null {
        return false;
      }
      KidStands(a, ta, ca, k);
      KidStands(b, tb, cb, place);
      ElementIsSmaller(ca, k);
      ElementIsSmaller(cb, place);
      found := Compare(aElement, bElement, caseSensitive, ta.kids[k], tb.kids[place], ca.kids[k], cb.kids[place]);
      if !found {
        return;
      }
      KidStands(a, ta, ca, k);
      aElement := aElement.next;
      k := k + 1;
    }
    found := true;
  }

  lemma ElementIsSmaller(c: Content, k: nat)
    requires (c.says.kind == ArrayKind || c.says.kind == ObjectKind) && k < |c.kids|
    ensures Size(JsonOf(c.kids[k])) < Size(JsonOf(c))
  {
    if c.says.kind == ArrayKind {
      ItemIsSmaller(ItemsOf(c.kids), k);
    } else {
      MemberIsSmaller(MembersOf(c.kids), k);
    }
  }

  lemma FirstIs(ta: Tree, tb: Tree, ca: Content, cb: Content, i: nat, caseSensitive: bool)
    requires Paired(ta, ca) && Paired(tb, cb) && i < |ca.kids|
    ensures var p := FirstWith(MembersOf(cb.kids), KeyOf(NameOf(ca.kids[i]), caseSensitive), caseSensitive);
            if p.None? then !AlikeFirst(ta, tb, ca, cb, i, caseSensitive)
            else p.value < |cb.kids| && p.value < |tb.kids| && i < |ta.kids|
                 && Paired(ta.kids[i], ca.kids[i]) && Paired(tb.kids[p.value], cb.kids[p.value])
                 && (AlikeFirst(ta, tb, ca, cb, i, caseSensitive)
                     <==> Alike(ta.kids[i], tb.kids[p.value], ca.kids[i], cb.kids[p.value], caseSensitive))
  {}
}
