/** When `cJSON_Compare` of fern/cJSON.c finds two trees equal. */
module JsonMeaning {
  import opened Bits
  import opened JsonText
  import opened Options

  // ----- Keys -----

  /** `tolower` in the C locale. */
  function Lower(b: Byte): Byte {
    if 0x41 <= b <= 0x5A then b + 0x20 else b
  }

  function Lowered(s: seq<Byte>): (r: seq<Byte>)
    ensures |r| == |s| && forall i :: 0 <= i < |s| ==> r[i] == Lower(s[i])
  {
    if s == [] then [] else [Lower(s[0])] + Lowered(s[1..])
  }

  /** What two keys must share to be the same key. */
  function KeyOf(name: seq<Byte>, caseSensitive: bool): seq<Byte> {
    if caseSensitive then name else Lowered(name)
  }

  /** The first member with the key, if any. */
  function FirstWith(members: seq<Member>, key: seq<Byte>, caseSensitive: bool): (r: Option<nat>)
    ensures r.Some? ==> r.value < |members| && KeyOf(members[r.value].name, caseSensitive) == key
                        && forall k :: 0 <= k < r.value ==> KeyOf(members[k].name, caseSensitive) != key
    ensures r.None? ==> forall k :: 0 <= k < |members| ==> KeyOf(members[k].name, caseSensitive) != key
  {
    if members == [] then None
    else if KeyOf(members[0].name, caseSensitive) == key then Some(0)
    else
      var rest := FirstWith(members[1..], key, caseSensitive);
      if rest.Some? then Some(rest.value + 1) else None
  }

  /** The byte is a letter in one case, and the other byte the same letter in the other case. */
  predicate OtherCase(a: Byte, b: Byte) {
    (0x41 <= a <= 0x5A && b == a + 0x20) || (0x61 <= a <= 0x7A && a == b + 0x20)
  }

  /** Without regard to case, names are one key if and only if they differ in the case of letters at most. */
  lemma {:induction false} SameKey(a: seq<Byte>, b: seq<Byte>)
    ensures KeyOf(a, true) == KeyOf(b, true) <==> a == b
    ensures KeyOf(a, false) == KeyOf(b, false)
            <==> |a| == |b| && forall i :: 0 <= i < |a| ==> a[i] == b[i] || OtherCase(a[i], b[i])
  {
    var x, y := Lowered(a), Lowered(b);
    forall i | 0 <= i < |a| && i < |b|
      ensures x[i] == y[i] <==> a[i] == b[i] || OtherCase(a[i], b[i])
    {
    }
    if |a| == |b| && forall i :: 0 <= i < |a| ==> a[i] == b[i] || OtherCase(a[i], b[i]) {
      assert x == y;
    }
  }

  // ----- The meaning of a tree -----

  /** A tree up to the order of members: arrays are sequences, objects are maps. */
  datatype Meaning =
    | Word(json: Json)
    | Numeric(value: real)
    | Text(text: seq<Byte>)
    | List(items: seq<Meaning>)
    | Map(members: map<seq<Byte>, Meaning>)

  /** Of several members with one key, a lookup sees the first. */
  ghost function MeaningOf(j: Json, caseSensitive: bool): Meaning {
    match j
    case Number(n) => Numeric(n)
    case String(s) => Text(s)
    case Array(items) => List(seq(|items|, i requires 0 <= i < |items| => MeaningOf(items[i], caseSensitive)))
    case Object(members) =>
      Map(map k | k in Keys(members, caseSensitive) ::
            MeaningOf(members[FirstWith(members, k, caseSensitive).value].value, caseSensitive))
    case _ => Word(j)
  }

  ghost function Keys(members: seq<Member>, caseSensitive: bool): (r: set<seq<Byte>>)
    ensures forall k :: k in r <==> FirstWith(members, k, caseSensitive).Some?
  {
    set i | 0 <= i < |members| :: KeyOf(members[i].name, caseSensitive)
  }

  /** Wherever a key is repeated, the members with it mean the same. */
  ghost predicate Consistent(j: Json, caseSensitive: bool) {
    match j
    case Array(items) => forall i :: 0 <= i < |items| ==> Consistent(items[i], caseSensitive)
    case Object(members) =>
      forall i :: 0 <= i < |members| ==>
        && Consistent(members[i].value, caseSensitive)
        && MeaningOf(members[i].value, caseSensitive)
           == MeaningOf(j, caseSensitive).members[KeyOf(members[i].name, caseSensitive)]
    case _ => true
  }

  ghost predicate Same(a: Json, b: Json, caseSensitive: bool) {
    && Consistent(a, caseSensitive) && Consistent(b, caseSensitive)
    && MeaningOf(a, caseSensitive) == MeaningOf(b, caseSensitive)
  }

  // ----- When two trees are the same -----

  function Size(j: Json): nat
    decreases j, 0
  {
    match j
    case Array(items) => 1 + SizeOfItems(items)
    case Object(members) => 1 + SizeOfMembers(members)
    case _ => 0
  }

  function SizeOfItems(items: seq<Json>): nat
    decreases items, 1
  {
    if items == [] then 0 else 1 + Size(items[0]) + SizeOfItems(items[1..])
  }

  function SizeOfMembers(members: seq<Member>): nat
    decreases members, 1
  {
    if members == [] then 0 else 1 + Size(members[0].value) + SizeOfMembers(members[1..])
  }

  lemma {:induction false} ItemIsSmaller(items: seq<Json>, i: nat)
    requires i < |items|
    ensures Size(items[i]) < SizeOfItems(items)
  {
    if i > 0 {
      ItemIsSmaller(items[1..], i - 1);
    }
  }

  lemma {:induction false} MemberIsSmaller(members: seq<Member>, i: nat)
    requires i < |members|
    ensures Size(members[i].value) < SizeOfMembers(members)
  {
    if i > 0 {
      MemberIsSmaller(members[1..], i - 1);
    }
  }

  ghost predicate HasSame(m: Member, members: seq<Member>, caseSensitive: bool) {
    var place := FirstWith(members, KeyOf(m.name, caseSensitive), caseSensitive);
    place.Some? && Same(m.value, members[place.value].value, caseSensitive)
  }

  lemma ArraysAreTheSame(a: seq<Json>, b: seq<Json>, caseSensitive: bool)
    ensures Same(Array(a), Array(b), caseSensitive)
            <==> |a| == |b| && forall i :: 0 <= i < |a| ==> Same(a[i], b[i], caseSensitive)
  {
    var x, y := MeaningOf(Array(a), caseSensitive).items, MeaningOf(Array(b), caseSensitive).items;
    assert |x| == |a| && |y| == |b|;
    if |a| == |b| && forall i :: 0 <= i < |a| ==> Same(a[i], b[i], caseSensitive) {
      assert x == y;
    }
    if x == y {
      forall i | 0 <= i < |a|
        ensures MeaningOf(a[i], caseSensitive) == MeaningOf(b[i], caseSensitive)
      {
        assert x[i] == y[i];
      }
    }
  }

  /** The map of an object, key by key. */
  lemma MapOf(members: seq<Member>, caseSensitive: bool)
    ensures var m := MeaningOf(Object(members), caseSensitive);
            && m.Map?
            && (forall k :: k in m.members <==> FirstWith(members, k, caseSensitive).Some?)
            && (forall k :: k in m.members ==>
                  m.members[k] == MeaningOf(members[FirstWith(members, k, caseSensitive).value].value, caseSensitive))
  {}

  lemma ConsistentMembers(members: seq<Member>, caseSensitive: bool)
    ensures Consistent(Object(members), caseSensitive) <==>
            forall i :: 0 <= i < |members| ==> AgreesWithFirst(members, i, caseSensitive)
  {
    hide FirstWith, KeyOf;
    MapOf(members, caseSensitive);
    var m := MeaningOf(Object(members), caseSensitive).members;
    forall i | 0 <= i < |members|
      ensures AgreesWithFirst(members, i, caseSensitive) <==>
              Consistent(members[i].value, caseSensitive)
              && MeaningOf(members[i].value, caseSensitive) == m[KeyOf(members[i].name, caseSensitive)]
    {
    }
  }

  ghost predicate AgreesWithFirst(members: seq<Member>, i: nat, caseSensitive: bool)
    requires i < |members|
  {
    var first := FirstWith(members, KeyOf(members[i].name, caseSensitive), caseSensitive).value;
    && Consistent(members[i].value, caseSensitive)
    && MeaningOf(members[i].value, caseSensitive) == MeaningOf(members[first].value, caseSensitive)
  }

  lemma FoundIsConsistent(a: seq<Member>, b: seq<Member>, caseSensitive: bool)
    requires forall i :: 0 <= i < |a| ==> HasSame(a[i], b, caseSensitive)
    ensures Consistent(Object(a), caseSensitive)
  {
    hide MeaningOf, Consistent, KeyOf;
    forall i | 0 <= i < |a|
      ensures AgreesWithFirst(a, i, caseSensitive)
    {
      var first := FirstWith(a, KeyOf(a[i].name, caseSensitive), caseSensitive).value;
      assert HasSame(a[i], b, caseSensitive) && HasSame(a[first], b, caseSensitive);
    }
    ConsistentMembers(a, caseSensitive);
  }

  lemma FoundBothWays(a: seq<Member>, b: seq<Member>, caseSensitive: bool)
    requires forall i :: 0 <= i < |a| ==> HasSame(a[i], b, caseSensitive)
    requires forall i :: 0 <= i < |b| ==> HasSame(b[i], a, caseSensitive)
    ensures Same(Object(a), Object(b), caseSensitive)
  {
    hide MeaningOf, Consistent, KeyOf;
    FoundIsConsistent(a, b, caseSensitive);
    FoundIsConsistent(b, a, caseSensitive);
    MapOf(a, caseSensitive);
    MapOf(b, caseSensitive);
    var x, y := MeaningOf(Object(a), caseSensitive).members, MeaningOf(Object(b), caseSensitive).members;
    forall k
      ensures k in x <==> k in y
      ensures k in x ==> x[k] == y[k]
    {
      var i, j := FirstWith(a, k, caseSensitive), FirstWith(b, k, caseSensitive);
      assert i.Some? ==> HasSame(a[i.value], b, caseSensitive);
      assert j.Some? ==> HasSame(b[j.value], a, caseSensitive);
    }
    assert x == y;
  }

  lemma SameIsFound(a: seq<Member>, b: seq<Member>, i: nat, caseSensitive: bool)
    requires Same(Object(a), Object(b), caseSensitive) && i < |a|
    ensures HasSame(a[i], b, caseSensitive)
  {
    hide MeaningOf, Consistent, KeyOf;
    MapOf(a, caseSensitive);
    MapOf(b, caseSensitive);
    ConsistentMembers(a, caseSensitive);
    ConsistentMembers(b, caseSensitive);
    var k := KeyOf(a[i].name, caseSensitive);
    assert AgreesWithFirst(a, i, caseSensitive);
    assert k in MeaningOf(Object(a), caseSensitive).members;
    assert AgreesWithFirst(b, FirstWith(b, k, caseSensitive).value, caseSensitive);
  }

  lemma ObjectsAreTheSame(a: seq<Member>, b: seq<Member>, caseSensitive: bool)
    ensures Same(Object(a), Object(b), caseSensitive)
            <==> && (forall i :: 0 <= i < |a| ==> HasSame(a[i], b, caseSensitive))
                 && (forall i :: 0 <= i < |b| ==> HasSame(b[i], a, caseSensitive))
  {
    hide Same, HasSame;
    if Same(Object(a), Object(b), caseSensitive) {
      assert Same(Object(b), Object(a), caseSensitive) by {
        SameIsSymmetric(Object(a), Object(b), caseSensitive);
      }
      forall i | 0 <= i < |a|
        ensures HasSame(a[i], b, caseSensitive)
      {
        SameIsFound(a, b, i, caseSensitive);
      }
      forall i | 0 <= i < |b|
        ensures HasSame(b[i], a, caseSensitive)
      {
        SameIsFound(b, a, i, caseSensitive);
      }
    } else if (forall i :: 0 <= i < |a| ==> HasSame(a[i], b, caseSensitive))
              && (forall i :: 0 <= i < |b| ==> HasSame(b[i], a, caseSensitive)) {
      FoundBothWays(a, b, caseSensitive);
      assert false;
    }
  }

  lemma SameIsSymmetric(a: Json, b: Json, caseSensitive: bool)
    requires Same(a, b, caseSensitive)
    ensures Same(b, a, caseSensitive)
  {}

  // ----- When two trees mean the same without being consistent -----

  ghost predicate MeansSame(a: Json, b: Json, caseSensitive: bool) {
    && MeaningOf(a, caseSensitive) == MeaningOf(b, caseSensitive)
    && (Consistent(a, caseSensitive) <==> Consistent(b, caseSensitive))
  }

  ghost predicate HasMeaning(m: Member, members: seq<Member>, caseSensitive: bool) {
    var place := FirstWith(members, KeyOf(m.name, caseSensitive), caseSensitive);
    place.Some? && MeansSame(m.value, members[place.value].value, caseSensitive)
  }

  lemma ListsMeanSame(a: seq<Json>, b: seq<Json>, caseSensitive: bool)
    requires |a| == |b| && forall i :: 0 <= i < |a| ==> MeansSame(a[i], b[i], caseSensitive)
    ensures MeansSame(Array(a), Array(b), caseSensitive)
  {
    var x, y := MeaningOf(Array(a), caseSensitive).items, MeaningOf(Array(b), caseSensitive).items;
    forall i | 0 <= i < |a|
      ensures x[i] == y[i] && (Consistent(a[i], caseSensitive) <==> Consistent(b[i], caseSensitive))
    {
      assert MeansSame(a[i], b[i], caseSensitive);
    }
    assert x == y;
  }

  lemma MapsMeanSame(a: seq<Member>, b: seq<Member>, caseSensitive: bool)
    requires forall i :: 0 <= i < |a| ==> HasMeaning(a[i], b, caseSensitive)
    requires forall i :: 0 <= i < |b| ==> HasMeaning(b[i], a, caseSensitive)
    ensures MeansSame(Object(a), Object(b), caseSensitive)
  {
    hide MeaningOf, Consistent, KeyOf;
    MapOf(a, caseSensitive);
    MapOf(b, caseSensitive);
    var x, y := MeaningOf(Object(a), caseSensitive).members, MeaningOf(Object(b), caseSensitive).members;
    forall k
      ensures k in x <==> k in y
      ensures k in x ==> x[k] == y[k]
    {
      var i, j := FirstWith(a, k, caseSensitive), FirstWith(b, k, caseSensitive);
      assert i.Some? ==> HasMeaning(a[i.value], b, caseSensitive);
      assert j.Some? ==> HasMeaning(b[j.value], a, caseSensitive);
    }
    assert x == y;
    ConsistencyCarries(a, b, caseSensitive);
    ConsistencyCarries(b, a, caseSensitive);
  }

  lemma ConsistencyCarries(a: seq<Member>, b: seq<Member>, caseSensitive: bool)
    requires forall i :: 0 <= i < |b| ==> HasMeaning(b[i], a, caseSensitive)
    ensures Consistent(Object(a), caseSensitive) ==> Consistent(Object(b), caseSensitive)
  {
    hide MeaningOf, Consistent, KeyOf;
    ConsistentMembers(a, caseSensitive);
    ConsistentMembers(b, caseSensitive);
    if Consistent(Object(a), caseSensitive) {
      forall j | 0 <= j < |b|
        ensures AgreesWithFirst(b, j, caseSensitive)
      {
        var key := KeyOf(b[j].name, caseSensitive);
        var first := FirstWith(b, key, caseSensitive).value;
        assert HasMeaning(b[j], a, caseSensitive) && HasMeaning(b[first], a, caseSensitive);
        assert AgreesWithFirst(a, FirstWith(a, key, caseSensitive).value, caseSensitive);
      }
    }
  }

  // ----- When it is an equivalence -----

  /** No object has two members with one key. */
  predicate DistinctKeys(j: Json, caseSensitive: bool) {
    match j
    case Array(items) => forall i :: 0 <= i < |items| ==> DistinctKeys(items[i], caseSensitive)
    case Object(members) =>
      && (forall i :: 0 <= i < |members| ==> DistinctKeys(members[i].value, caseSensitive))
      && (forall i, k :: 0 <= i < k < |members| ==>
            KeyOf(members[i].name, caseSensitive) != KeyOf(members[k].name, caseSensitive))
    case _ => true
  }

  /** Trees with distinct keys are compared by meaning alone, so there the comparison is an equivalence. */
  lemma {:induction false} DistinctIsConsistent(j: Json, caseSensitive: bool)
    requires DistinctKeys(j, caseSensitive)
    ensures Consistent(j, caseSensitive)
  {
    hide KeyOf, MeaningOf;
    match j
    case Array(items) =>
      forall i | 0 <= i < |items|
        ensures Consistent(items[i], caseSensitive)
      {
        DistinctIsConsistent(items[i], caseSensitive);
      }
    case Object(members) =>
      forall i | 0 <= i < |members|
        ensures AgreesWithFirst(members, i, caseSensitive)
      {
        DistinctIsConsistent(members[i].value, caseSensitive);
      }
      ConsistentMembers(members, caseSensitive);
    case _ =>
  }

  /** An object with one key twice, for null and for true, is not consistent. */
  lemma NullThenTrue(members: seq<Member>, caseSensitive: bool)
    requires |members| == 2 && members[0].name == members[1].name
    requires members[0].value == Null && members[1].value == True
    ensures !Consistent(Object(members), caseSensitive)
  {
    hide KeyOf, Consistent;
    ConsistentMembers(members, caseSensitive);
    assert FirstWith(members, KeyOf(members[1].name, caseSensitive), caseSensitive) == Some(0);
    assert !AgreesWithFirst(members, 1, caseSensitive);
  }
}
