/** When two linked trees are alike: what `cJSON_Compare` of fern/cJSON.c decides, identical items and all. */
module JsonAlike {
  import opened JsonItems
  import opened JsonMeaning
  import opened JsonText
  import opened JsonTrees
  import opened JsonValues
  import opened Options

  /** A tree and what it says have the same shape. */
  ghost predicate Paired(t: Tree, c: Content) {
    |t.kids| == |c.kids| && forall i :: 0 <= i < |t.kids| ==> Paired(t.kids[i], c.kids[i])
  }

  lemma PairedKids(t: Tree, c: Content)
    requires Paired(t, c)
    ensures |t.kids| == |c.kids| && forall i :: 0 <= i < |t.kids| ==> Paired(t.kids[i], c.kids[i])
  {}

  lemma {:induction false} StandsIsPaired(x: Item, t: Tree, c: Content)
    requires Stands(x, t, c)
    ensures Paired(t, c)
    decreases c
  {
    RootStands(x, t, c);
    hide Stands;
    forall i | 0 <= i < |t.kids|
      ensures Paired(t.kids[i], c.kids[i])
    {
      KidStands(x, t, c, i);
      StandsIsPaired(t.kids[i].root, t.kids[i], c.kids[i]);
    }
  }

  /** The first child with the key of a member. */
  ghost function FirstOf(c: Content, member: Content, caseSensitive: bool): (r: Option<nat>)
    ensures r.Some? ==> r.value < |c.kids|
  {
    FirstWith(MembersOf(c.kids), KeyOf(NameOf(member), caseSensitive), caseSensitive)
  }

  /** Identical items are alike, and so are items of one kind with the same value, alike elements in order, or members
      that are each alike the first of their key on the other side. */
  ghost predicate Alike(ta: Tree, tb: Tree, ca: Content, cb: Content, caseSensitive: bool)
    requires Paired(ta, ca) && Paired(tb, cb)
    decreases ca
  {
    || ta.root == tb.root
    || (ca.says.kind == cb.says.kind &&
        match ca.says.kind
        case NumberKind => ca.says.valuedouble == cb.says.valuedouble
        case StringKind => ca.says.valuestring == cb.says.valuestring
        case ArrayKind =>
          && |ca.kids| == |cb.kids|
          && forall i {:trigger ca.kids[i]} :: 0 <= i < |ca.kids| ==>
               Alike(ta.kids[i], tb.kids[i], ca.kids[i], cb.kids[i], caseSensitive)
        case ObjectKind =>
          && (forall i {:trigger ca.kids[i]} :: 0 <= i < |ca.kids| ==>
                var p := FirstOf(cb, ca.kids[i], caseSensitive);
                p.Some? && Alike(ta.kids[i], tb.kids[p.value], ca.kids[i], cb.kids[p.value], caseSensitive))
          && (forall j {:trigger cb.kids[j]} :: 0 <= j < |cb.kids| ==>
                var p := FirstOf(ca, cb.kids[j], caseSensitive);
                p.Some? && Alike(ta.kids[p.value], tb.kids[j], ca.kids[p.value], cb.kids[j], caseSensitive))
        case _ => true)
  }

  ghost predicate AlikeAt(ta: Tree, tb: Tree, ca: Content, cb: Content, i: nat, caseSensitive: bool)
    requires Paired(ta, ca) && Paired(tb, cb) && i < |ca.kids| && i < |cb.kids|
  {
    Alike(ta.kids[i], tb.kids[i], ca.kids[i], cb.kids[i], caseSensitive)
  }

  /** A member of the one is alike the first of its key in the other. */
  ghost predicate AlikeFirst(ta: Tree, tb: Tree, ca: Content, cb: Content, i: nat, caseSensitive: bool)
    requires Paired(ta, ca) && Paired(tb, cb) && i < |ca.kids|
  {
    var p := FirstOf(cb, ca.kids[i], caseSensitive);
    p.Some? && Alike(ta.kids[i], tb.kids[p.value], ca.kids[i], cb.kids[p.value], caseSensitive)
  }

  /** A member of the other is alike the first of its key in the one. */
  ghost predicate FirstAlike(ta: Tree, tb: Tree, ca: Content, cb: Content, j: nat, caseSensitive: bool)
    requires Paired(ta, ca) && Paired(tb, cb) && j < |cb.kids|
  {
    var p := FirstOf(ca, cb.kids[j], caseSensitive);
    p.Some? && Alike(ta.kids[p.value], tb.kids[j], ca.kids[p.value], cb.kids[j], caseSensitive)
  }

  lemma ArraysAlike(ta: Tree, tb: Tree, ca: Content, cb: Content, caseSensitive: bool)
    requires Paired(ta, ca) && Paired(tb, cb) && ca.says.kind == cb.says.kind == ArrayKind && ta.root != tb.root
    ensures Alike(ta, tb, ca, cb, caseSensitive)
            <==> |ca.kids| == |cb.kids|
                 && forall i :: 0 <= i < |ca.kids| ==> AlikeAt(ta, tb, ca, cb, i, caseSensitive)
  {
    if |ca.kids| == |cb.kids| && forall i :: 0 <= i < |ca.kids| ==> AlikeAt(ta, tb, ca, cb, i, caseSensitive) {
      forall i | 0 <= i < |ca.kids|
        ensures Alike(ta.kids[i], tb.kids[i], ca.kids[i], cb.kids[i], caseSensitive)
      {
        assert AlikeAt(ta, tb, ca, cb, i, caseSensitive);
      }
    }
  }

  lemma MembersAlike(ta: Tree, tb: Tree, ca: Content, cb: Content, caseSensitive: bool)
    requires Paired(ta, ca) && Paired(tb, cb) && ca.says.kind == cb.says.kind == ObjectKind && ta.root != tb.root
    ensures Alike(ta, tb, ca, cb, caseSensitive)
            <==> && (forall i :: 0 <= i < |ca.kids| ==> AlikeFirst(ta, tb, ca, cb, i, caseSensitive))
                 && (forall j :: 0 <= j < |cb.kids| ==> FirstAlike(ta, tb, ca, cb, j, caseSensitive))
  {
    hide *;
    if Alike(ta, tb, ca, cb, caseSensitive) {
      AlikeHasMembers(ta, tb, ca, cb, caseSensitive);
    } else if (forall i :: 0 <= i < |ca.kids| ==> AlikeFirst(ta, tb, ca, cb, i, caseSensitive))
              && (forall j :: 0 <= j < |cb.kids| ==> FirstAlike(ta, tb, ca, cb, j, caseSensitive)) {
      MembersMakeAlike(ta, tb, ca, cb, caseSensitive);
    }
  }

  lemma AlikeHasMembers(ta: Tree, tb: Tree, ca: Content, cb: Content, caseSensitive: bool)
    requires Paired(ta, ca) && Paired(tb, cb) && ca.says.kind == cb.says.kind == ObjectKind && ta.root != tb.root
    requires Alike(ta, tb, ca, cb, caseSensitive)
    ensures forall i :: 0 <= i < |ca.kids| ==> AlikeFirst(ta, tb, ca, cb, i, caseSensitive)
    ensures forall j :: 0 <= j < |cb.kids| ==> FirstAlike(ta, tb, ca, cb, j, caseSensitive)
  {
    hide FirstOf, Paired;
  }

  lemma MembersMakeAlike(ta: Tree, tb: Tree, ca: Content, cb: Content, caseSensitive: bool)
    requires Paired(ta, ca) && Paired(tb, cb) && ca.says.kind == cb.says.kind == ObjectKind && ta.root != tb.root
    requires forall i :: 0 <= i < |ca.kids| ==> AlikeFirst(ta, tb, ca, cb, i, caseSensitive)
    requires forall j :: 0 <= j < |cb.kids| ==> FirstAlike(ta, tb, ca, cb, j, caseSensitive)
    ensures Alike(ta, tb, ca, cb, caseSensitive)
  {
    hide FirstOf, Paired;
    PairedKids(ta, ca);
    PairedKids(tb, cb);
    forall i | 0 <= i < |ca.kids|
      ensures var p := FirstOf(cb, ca.kids[i], caseSensitive);
              p.Some? && Alike(ta.kids[i], tb.kids[p.value], ca.kids[i], cb.kids[p.value], caseSensitive)
    {
      assert AlikeFirst(ta, tb, ca, cb, i, caseSensitive);
    }
    forall j | 0 <= j < |cb.kids|
      ensures var p := FirstOf(ca, cb.kids[j], caseSensitive);
              p.Some? && Alike(ta.kids[p.value], tb.kids[j], ca.kids[p.value], cb.kids[j], caseSensitive)
    {
      assert FirstAlike(ta, tb, ca, cb, j, caseSensitive);
    }
  }

  /** The walk over the other object finds what a walk from its side would. */
  lemma ObjectsAlike(ta: Tree, tb: Tree, ca: Content, cb: Content, caseSensitive: bool)
    requires Paired(ta, ca) && Paired(tb, cb) && ca.says.kind == cb.says.kind == ObjectKind && ta.root != tb.root
    ensures Alike(ta, tb, ca, cb, caseSensitive)
            <==> && (forall i :: 0 <= i < |ca.kids| ==> AlikeFirst(ta, tb, ca, cb, i, caseSensitive))
                 && (forall j :: 0 <= j < |cb.kids| ==> AlikeFirst(tb, ta, cb, ca, j, caseSensitive))
    decreases ca, 0, 1
  {
    MembersAlike(ta, tb, ca, cb, caseSensitive);
    hide Alike, AlikeFirst, FirstAlike;
    forall j | 0 <= j < |cb.kids|
      ensures FirstAlike(ta, tb, ca, cb, j, caseSensitive) <==> AlikeFirst(tb, ta, cb, ca, j, caseSensitive)
    {
      FirstIsFirst(ta, tb, ca, cb, j, caseSensitive);
    }
  }

  lemma FirstIsFirst(ta: Tree, tb: Tree, ca: Content, cb: Content, j: nat, caseSensitive: bool)
    requires Paired(ta, ca) && Paired(tb, cb) && j < |cb.kids|
    ensures FirstAlike(ta, tb, ca, cb, j, caseSensitive) <==> AlikeFirst(tb, ta, cb, ca, j, caseSensitive)
    decreases ca, 0, 0
  {
    hide Alike, FirstOf;
    var p := FirstOf(ca, cb.kids[j], caseSensitive);
    if p.Some? {
      AlikeIsSymmetric(ta.kids[p.value], tb.kids[j], ca.kids[p.value], cb.kids[j], caseSensitive);
    }
  }

  // ----- An equivalence on all trees -----

  lemma {:induction false} AlikeIsSymmetric(ta: Tree, tb: Tree, ca: Content, cb: Content, caseSensitive: bool)
    requires Paired(ta, ca) && Paired(tb, cb)
    ensures Alike(ta, tb, ca, cb, caseSensitive) <==> Alike(tb, ta, cb, ca, caseSensitive)
    decreases ca, 1
  {
    hide AlikeFirst, FirstAlike, AlikeAt;
    if ta.root != tb.root && ca.says.kind == cb.says.kind {
      if ca.says.kind == ArrayKind && |ca.kids| == |cb.kids| {
        ArraysAlike(ta, tb, ca, cb, caseSensitive);
        ArraysAlike(tb, ta, cb, ca, caseSensitive);
        hide Alike;
        forall i | 0 <= i < |ca.kids|
          ensures AlikeAt(ta, tb, ca, cb, i, caseSensitive) <==> AlikeAt(tb, ta, cb, ca, i, caseSensitive)
        {
          AtIsAt(ta, tb, ca, cb, i, caseSensitive);
        }
      } else if ca.says.kind == ObjectKind {
        ObjectsAlike(ta, tb, ca, cb, caseSensitive);
        MembersAlike(tb, ta, cb, ca, caseSensitive);
        hide Alike;
        forall i | 0 <= i < |ca.kids|
          ensures AlikeFirst(ta, tb, ca, cb, i, caseSensitive) <==> FirstAlike(tb, ta, cb, ca, i, caseSensitive)
        {
          MemberIsMember(ta, tb, ca, cb, i, caseSensitive);
        }
      }
    }
  }

  lemma AtIsAt(ta: Tree, tb: Tree, ca: Content, cb: Content, i: nat, caseSensitive: bool)
    requires Paired(ta, ca) && Paired(tb, cb) && i < |ca.kids| && i < |cb.kids|
    ensures AlikeAt(ta, tb, ca, cb, i, caseSensitive) <==> AlikeAt(tb, ta, cb, ca, i, caseSensitive)
    decreases ca, 0, 0
  {
    hide Alike;
    AlikeIsSymmetric(ta.kids[i], tb.kids[i], ca.kids[i], cb.kids[i], caseSensitive);
  }

  lemma MemberIsMember(ta: Tree, tb: Tree, ca: Content, cb: Content, i: nat, caseSensitive: bool)
    requires Paired(ta, ca) && Paired(tb, cb) && i < |ca.kids|
    ensures AlikeFirst(ta, tb, ca, cb, i, caseSensitive) <==> FirstAlike(tb, ta, cb, ca, i, caseSensitive)
    decreases ca, 0, 0
  {
    hide Alike, FirstOf;
    var p := FirstOf(cb, ca.kids[i], caseSensitive);
    if p.Some? {
      AlikeIsSymmetric(ta.kids[i], tb.kids[p.value], ca.kids[i], cb.kids[p.value], caseSensitive);
    }
  }

  /** What is alike depends on an item, not on how its tree is described. */
  lemma {:induction false} OneTree(x: Item, t: Tree, t': Tree, c: Content, u: Tree, d: Content, caseSensitive: bool)
    requires Stands(x, t, c) && Stands(x, t', c) && Paired(t, c) && Paired(t', c) && Paired(u, d)
    ensures Alike(t, u, c, d, caseSensitive) <==> Alike(t', u, c, d, caseSensitive)
    decreases c
  {
    RootStands(x, t, c);
    RootStands(x, t', c);
    StandsForOne(x, t, t', c, c);
    hide Stands, AlikeAt, AlikeFirst, FirstAlike;
    if t.root != u.root && c.says.kind == d.says.kind {
      forall i, j | 0 <= i < |c.kids| && 0 <= j < |d.kids|
        ensures Alike(t.kids[i], u.kids[j], c.kids[i], d.kids[j], caseSensitive)
                <==> Alike(t'.kids[i], u.kids[j], c.kids[i], d.kids[j], caseSensitive)
      {
        KidStands(x, t, c, i);
        KidStands(x, t', c, i);
        assert Roots(t.kids)[i] == Roots(t'.kids)[i];
        OneTree(t.kids[i].root, t.kids[i], t'.kids[i], c.kids[i], u.kids[j], d.kids[j], caseSensitive);
      }
      KidsDecide(t, t', c, u, d, caseSensitive);
    }
  }

  lemma KidsDecide(t: Tree, t': Tree, c: Content, u: Tree, d: Content, caseSensitive: bool)
    requires Paired(t, c) && Paired(t', c) && Paired(u, d) && t.root == t'.root != u.root && c.says.kind == d.says.kind
    requires forall i, j :: 0 <= i < |c.kids| && 0 <= j < |d.kids| ==>
               (Alike(t.kids[i], u.kids[j], c.kids[i], d.kids[j], caseSensitive)
                <==> Alike(t'.kids[i], u.kids[j], c.kids[i], d.kids[j], caseSensitive))
    ensures Alike(t, u, c, d, caseSensitive) <==> Alike(t', u, c, d, caseSensitive)
  {
    hide FirstOf;
    if c.says.kind == ArrayKind {
      ArraysAlike(t, u, c, d, caseSensitive);
      ArraysAlike(t', u, c, d, caseSensitive);
      hide Alike;
    } else if c.says.kind == ObjectKind {
      MembersAlike(t, u, c, d, caseSensitive);
      MembersAlike(t', u, c, d, caseSensitive);
      hide Alike;
      assert forall i :: 0 <= i < |c.kids| ==>
                           (AlikeFirst(t, u, c, d, i, caseSensitive) <==> AlikeFirst(t', u, c, d, i, caseSensitive));
      assert forall j :: 0 <= j < |d.kids| ==>
                           (FirstAlike(t, u, c, d, j, caseSensitive) <==> FirstAlike(t', u, c, d, j, caseSensitive));
    }
  }

  lemma {:induction false} AlikeIsTransitive(a: Item, b: Item, c: Item, ta: Tree, tb: Tree, tc: Tree, ca: Content,
                                             cb: Content, cc: Content, caseSensitive: bool)
    requires Stands(a, ta, ca) && Stands(b, tb, cb) && Stands(c, tc, cc)
    requires Paired(ta, ca) && Paired(tb, cb) && Paired(tc, cc)
    requires Alike(ta, tb, ca, cb, caseSensitive) && Alike(tb, tc, cb, cc, caseSensitive)
    ensures Alike(ta, tc, ca, cc, caseSensitive)
    decreases ca
  {
    RootStands(a, ta, ca);
    RootStands(b, tb, cb);
    RootStands(c, tc, cc);
    hide Stands, AlikeAt, AlikeFirst, FirstAlike;
    if a == b {
      StandsForOne(a, ta, tb, ca, cb);
      OneTree(a, ta, tb, ca, tc, cc, caseSensitive);
    } else if b == c {
      StandsForOne(b, tb, tc, cb, cc);
      OneTree(b, tb, tc, cb, ta, ca, caseSensitive);
      AlikeIsSymmetric(ta, tb, ca, cb, caseSensitive);
      AlikeIsSymmetric(ta, tc, ca, cc, caseSensitive);
    } else if a != c {
      if ca.says.kind == ArrayKind {
        ArraysAlike(ta, tb, ca, cb, caseSensitive);
        ArraysAlike(tb, tc, cb, cc, caseSensitive);
        ArraysAlike(ta, tc, ca, cc, caseSensitive);
        hide Alike;
        forall i | 0 <= i < |ca.kids|
          ensures AlikeAt(ta, tc, ca, cc, i, caseSensitive)
        {
          AtIsTransitive(a, b, c, ta, tb, tc, ca, cb, cc, i, caseSensitive);
        }
      } else if ca.says.kind == ObjectKind {
        MembersAlike(ta, tb, ca, cb, caseSensitive);
        MembersAlike(tb, tc, cb, cc, caseSensitive);
        MembersAlike(ta, tc, ca, cc, caseSensitive);
        hide Alike;
        forall i | 0 <= i < |ca.kids|
          ensures AlikeFirst(ta, tc, ca, cc, i, caseSensitive)
        {
          MemberIsTransitive(a, b, c, ta, tb, tc, ca, cb, cc, i, caseSensitive);
        }
        forall j | 0 <= j < |cc.kids|
          ensures FirstAlike(ta, tc, ca, cc, j, caseSensitive)
        {
          FirstIsTransitive(a, b, c, ta, tb, tc, ca, cb, cc, j, caseSensitive);
        }
      }
    }
  }

  lemma AtIsTransitive(a: Item, b: Item, c: Item, ta: Tree, tb: Tree, tc: Tree, ca: Content, cb: Content, cc: Content,
                       i: nat, caseSensitive: bool)
    requires Stands(a, ta, ca) && Stands(b, tb, cb) && Stands(c, tc, cc)
    requires Paired(ta, ca) && Paired(tb, cb) && Paired(tc, cc)
    requires i < |ca.kids| && |ca.kids| == |cb.kids| == |cc.kids|
    requires AlikeAt(ta, tb, ca, cb, i, caseSensitive) && AlikeAt(tb, tc, cb, cc, i, caseSensitive)
    ensures AlikeAt(ta, tc, ca, cc, i, caseSensitive)
    decreases ca, 0
  {
    hide Stands, Alike;
    KidStands(a, ta, ca, i);
    KidStands(b, tb, cb, i);
    KidStands(c, tc, cc, i);
    AlikeIsTransitive(ta.kids[i].root, tb.kids[i].root, tc.kids[i].root, ta.kids[i], tb.kids[i], tc.kids[i],
                      ca.kids[i], cb.kids[i], cc.kids[i], caseSensitive);
  }

  /** The first member with a key has that key. */
  lemma FirstHasKey(c: Content, d: Content, member: Content, caseSensitive: bool)
    ensures var p := FirstOf(c, member, caseSensitive);
            p.Some? ==> FirstOf(d, c.kids[p.value], caseSensitive) == FirstOf(d, member, caseSensitive)
  {}

  lemma MemberIsTransitive(a: Item, b: Item, c: Item, ta: Tree, tb: Tree, tc: Tree, ca: Content, cb: Content,
                           cc: Content, i: nat, caseSensitive: bool)
    requires Stands(a, ta, ca) && Stands(b, tb, cb) && Stands(c, tc, cc)
    requires Paired(ta, ca) && Paired(tb, cb) && Paired(tc, cc) && i < |ca.kids|
    requires AlikeFirst(ta, tb, ca, cb, i, caseSensitive)
    requires forall k :: 0 <= k < |cb.kids| ==> AlikeFirst(tb, tc, cb, cc, k, caseSensitive)
    ensures AlikeFirst(ta, tc, ca, cc, i, caseSensitive)
    decreases ca, 0
  {
    hide Stands, Alike, FirstOf;
    FirstHasKey(cb, cc, ca.kids[i], caseSensitive);
    var p := FirstOf(cb, ca.kids[i], caseSensitive).value;
    assert AlikeFirst(tb, tc, cb, cc, p, caseSensitive);
    var q := FirstOf(cc, cb.kids[p], caseSensitive).value;
    KidStands(a, ta, ca, i);
    KidStands(b, tb, cb, p);
    KidStands(c, tc, cc, q);
    AlikeIsTransitive(ta.kids[i].root, tb.kids[p].root, tc.kids[q].root, ta.kids[i], tb.kids[p], tc.kids[q],
                      ca.kids[i], cb.kids[p], cc.kids[q], caseSensitive);
  }

  lemma FirstIsTransitive(a: Item, b: Item, c: Item, ta: Tree, tb: Tree, tc: Tree, ca: Content, cb: Content,
                          cc: Content, j: nat, caseSensitive: bool)
    requires Stands(a, ta, ca) && Stands(b, tb, cb) && Stands(c, tc, cc)
    requires Paired(ta, ca) && Paired(tb, cb) && Paired(tc, cc) && j < |cc.kids|
    requires FirstAlike(tb, tc, cb, cc, j, caseSensitive)
    requires forall k :: 0 <= k < |cb.kids| ==> FirstAlike(ta, tb, ca, cb, k, caseSensitive)
    ensures FirstAlike(ta, tc, ca, cc, j, caseSensitive)
    decreases ca, 0
  {
    hide Stands, Alike, FirstOf;
    FirstHasKey(cb, ca, cc.kids[j], caseSensitive);
    var p := FirstOf(cb, cc.kids[j], caseSensitive).value;
    assert FirstAlike(ta, tb, ca, cb, p, caseSensitive);
    var q := FirstOf(ca, cb.kids[p], caseSensitive).value;
    KidStands(a, ta, ca, q);
    KidStands(b, tb, cb, p);
    KidStands(c, tc, cc, j);
    AlikeIsTransitive(ta.kids[q].root, tb.kids[p].root, tc.kids[j].root, ta.kids[q], tb.kids[p], tc.kids[j],
                      ca.kids[q], cb.kids[p], cc.kids[j], caseSensitive);
  }

  // ----- What comparable trees are -----

  /** Two trees whose comparison can meet no item twice. */
  ghost predicate Disjoint(a: Tree, b: Tree) {
    All(a) !! All(b)
  }

  /** One tree stands somewhere below the root of another. */
  ghost predicate Within(t: Tree, u: Tree) {
    exists m :: 0 <= m < |u.kids| && (t == u.kids[m] || Within(t, u.kids[m]))
  }

  lemma {:induction false} WithinIsBelow(t: Tree, u: Tree)
    requires Within(t, u) && Proper(u)
    ensures Proper(t) && All(t) <= u.below
  {
    var m :| 0 <= m < |u.kids| && (t == u.kids[m] || Within(t, u.kids[m]));
    assert Proper(u.kids[m]) && All(u.kids[m]) <= u.below;
    if t != u.kids[m] {
      WithinIsBelow(t, u.kids[m]);
    }
  }

  lemma {:induction false} KidIsWithin(t: Tree, j: nat, u: Tree)
    requires (t == u || Within(t, u)) && j < |t.kids|
    ensures Within(t.kids[j], u)
  {
    if t != u {
      var m :| 0 <= m < |u.kids| && (t == u.kids[m] || Within(t, u.kids[m]));
      KidIsWithin(t, j, u.kids[m]);
    }
  }

  /** Trees without common items, a tree and one below its root, or trees whose common items equal themselves anyway:
      all but different items that share children and repeat keys in them. */
  ghost predicate Comparable(ta: Tree, tb: Tree, ca: Content, cb: Content, caseSensitive: bool) {
    || Disjoint(ta, tb) || Within(ta, tb) || Within(tb, ta)
    || (Consistent(JsonOf(ca), caseSensitive) && Consistent(JsonOf(cb), caseSensitive))
  }

  lemma ComparableIsSymmetric(ta: Tree, tb: Tree, ca: Content, cb: Content, caseSensitive: bool)
    requires Comparable(ta, tb, ca, cb, caseSensitive)
    ensures Comparable(tb, ta, cb, ca, caseSensitive)
  {}

  lemma KindsDiffer(ca: Content, cb: Content, caseSensitive: bool)
    requires ca.says.kind != cb.says.kind
    ensures !Same(JsonOf(ca), JsonOf(cb), caseSensitive)
  {}

  lemma Leaves(ca: Content, cb: Content, caseSensitive: bool)
    requires ca.says.kind == cb.says.kind
    ensures match ca.says.kind
            case NumberKind =>
              Same(JsonOf(ca), JsonOf(cb), caseSensitive) <==> ca.says.valuedouble == cb.says.valuedouble
            case StringKind =>
              Same(JsonOf(ca), JsonOf(cb), caseSensitive) <==> ca.says.valuestring == cb.says.valuestring
            case ArrayKind => true
            case ObjectKind => true
            case _ => Same(JsonOf(ca), JsonOf(cb), caseSensitive)
  {}

  /** Of a tree and one below its root, no child of the one is a child of the other. */
  lemma KidsAreNested(t: Tree, u: Tree, i: nat, j: nat)
    requires Within(t, u) && Proper(u) && i < |t.kids| && j < |u.kids|
    ensures Disjoint(t.kids[i], u.kids[j]) || Within(t.kids[i], u.kids[j])
    ensures t.kids[i].root != u.kids[j].root
  {
    hide Proper, Within, All;
    var m := Branch(t, u);
    KidsAreApart(u, m, j);
    KidIsWithin(t, i, u.kids[m]);
    WithinIsBelow(t.kids[i], u.kids[m]);
    RootsAmong(t.kids[i], u.kids[m], u.kids[j]);
  }

  /** The child that a tree is, or stands below. */
  ghost function Branch(t: Tree, u: Tree): (m: nat)
    requires Within(t, u)
    ensures m < |u.kids| && (t == u.kids[m] || Within(t, u.kids[m]))
  {
    var m :| 0 <= m < |u.kids| && (t == u.kids[m] || Within(t, u.kids[m]));
    m
  }

  lemma KidsAreApart(u: Tree, m: nat, j: nat)
    requires Proper(u) && m < |u.kids| && j < |u.kids|
    ensures Proper(u.kids[m]) && u.kids[m].root !in u.kids[m].below
    ensures m == j || Disjoint(u.kids[m], u.kids[j])
  {
    assert m < j ==> All(u.kids[m]) !! All(u.kids[j]);
    assert j < m ==> All(u.kids[j]) !! All(u.kids[m]);
  }

  lemma RootsAmong(t: Tree, u: Tree, other: Tree)
    requires All(t) <= u.below && u.root !in u.below && (u == other || Disjoint(u, other))
    ensures t.root != other.root && (u == other || Disjoint(t, other))
  {
    assert t.root in All(t) && other.root in All(other);
  }

  /** Children of comparable trees are comparable, and equal if they are identical. */
  lemma KidsAreComparable(a: Item, b: Item, ta: Tree, tb: Tree, ca: Content, cb: Content, i: nat, j: nat,
                          caseSensitive: bool)
    requires Stands(a, ta, ca) && Stands(b, tb, cb) && Comparable(ta, tb, ca, cb, caseSensitive)
    requires ca.says.kind == ArrayKind || ca.says.kind == ObjectKind
    requires cb.says.kind == ArrayKind || cb.says.kind == ObjectKind
    requires i < |ta.kids| && i < |ca.kids| && Stands(ta.kids[i].root, ta.kids[i], ca.kids[i])
    requires j < |tb.kids| && j < |cb.kids| && Stands(tb.kids[j].root, tb.kids[j], cb.kids[j])
    requires All(ta.kids[i]) <= ta.below && All(tb.kids[j]) <= tb.below
    ensures Comparable(ta.kids[i], tb.kids[j], ca.kids[i], cb.kids[j], caseSensitive)
    ensures ta.kids[i].root == tb.kids[j].root ==> Same(JsonOf(ca.kids[i]), JsonOf(cb.kids[j]), caseSensitive)
  {
    hide MeaningOf, Within, Linked, ContentOf, Sound;
    assert Proper(ta) && Proper(tb);
    hide Stands, Proper;
    if Within(ta, tb) {
      KidsAreNested(ta, tb, i, j);
    } else if Within(tb, ta) {
      KidsAreNested(tb, ta, j, i);
    } else if Disjoint(ta, tb) {
      assert ta.kids[i].root in All(ta.kids[i]) && tb.kids[j].root in All(tb.kids[j]);
    } else {
      KidIsConsistent(ca, i, caseSensitive);
      KidIsConsistent(cb, j, caseSensitive);
      if ta.kids[i].root == tb.kids[j].root {
        StandsForOne(ta.kids[i].root, ta.kids[i], tb.kids[j], ca.kids[i], cb.kids[j]);
      }
    }
  }

  lemma KidIsConsistent(c: Content, k: nat, caseSensitive: bool)
    requires Consistent(JsonOf(c), caseSensitive) && (c.says.kind == ArrayKind || c.says.kind == ObjectKind)
    requires k < |c.kids|
    ensures Consistent(JsonOf(c.kids[k]), caseSensitive)
  {
    if c.says.kind == ArrayKind {
      assert ItemsOf(c.kids)[k] == JsonOf(c.kids[k]);
    } else {
      assert MembersOf(c.kids)[k].value == JsonOf(c.kids[k]);
    }
  }

  // ----- What alike trees mean -----

  lemma MemberJson(c: Content, d: Content, i: nat, caseSensitive: bool)
    requires i < |c.kids|
    ensures MembersOf(c.kids)[i].value == JsonOf(c.kids[i])
    ensures FirstWith(MembersOf(d.kids), KeyOf(MembersOf(c.kids)[i].name, caseSensitive), caseSensitive)
            == FirstOf(d, c.kids[i], caseSensitive)
  {}

  lemma KindIs(c: Content)
    ensures c.says.kind == ArrayKind ==> JsonOf(c) == Array(ItemsOf(c.kids))
    ensures c.says.kind == ObjectKind ==> JsonOf(c) == Object(MembersOf(c.kids))
  {}

  /** What says the same is alike. */
  lemma {:induction false} SameIsAlike(ta: Tree, tb: Tree, ca: Content, cb: Content, caseSensitive: bool)
    requires Paired(ta, ca) && Paired(tb, cb) && Same(JsonOf(ca), JsonOf(cb), caseSensitive)
    ensures Alike(ta, tb, ca, cb, caseSensitive)
    decreases ca, 2
  {
    hide Same, FirstOf, AlikeAt;
    if ca.says.kind != cb.says.kind {
      KindsDiffer(ca, cb, caseSensitive);
      assert false;
    }
    if ta.root != tb.root {
      Leaves(ca, cb, caseSensitive);
      KindIs(ca);
      KindIs(cb);
      hide JsonOf;
      if ca.says.kind == ArrayKind {
        ArraysAreTheSame(ItemsOf(ca.kids), ItemsOf(cb.kids), caseSensitive);
        ArraysAlike(ta, tb, ca, cb, caseSensitive);
        hide Alike;
        forall i | 0 <= i < |ca.kids|
          ensures AlikeAt(ta, tb, ca, cb, i, caseSensitive)
        {
          assert Same(ItemsOf(ca.kids)[i], ItemsOf(cb.kids)[i], caseSensitive);
          SameIsAlike(ta.kids[i], tb.kids[i], ca.kids[i], cb.kids[i], caseSensitive);
          AtIs(ta, tb, ca, cb, i, caseSensitive);
        }
      } else if ca.says.kind == ObjectKind {
        SameIsAlikeObjects(ta, tb, ca, cb, caseSensitive);
      }
    }
  }

  lemma SameIsAlikeObjects(ta: Tree, tb: Tree, ca: Content, cb: Content, caseSensitive: bool)
    requires Paired(ta, ca) && Paired(tb, cb) && ta.root != tb.root && ca.says.kind == cb.says.kind == ObjectKind
    requires Same(JsonOf(ca), JsonOf(cb), caseSensitive)
    ensures Alike(ta, tb, ca, cb, caseSensitive)
    decreases ca, 1
  {
    hide Same, FirstOf, AlikeAt, KeyOf, FirstWith, MeaningOf, Consistent, NameOf;
    KindIs(ca);
    KindIs(cb);
    hide JsonOf;
    ObjectsAreTheSame(MembersOf(ca.kids), MembersOf(cb.kids), caseSensitive);
    MembersAlike(ta, tb, ca, cb, caseSensitive);
    hide Alike;
    forall i | 0 <= i < |ca.kids|
      ensures AlikeFirst(ta, tb, ca, cb, i, caseSensitive)
    {
      MemberJson(ca, cb, i, caseSensitive);
      assert HasSame(MembersOf(ca.kids)[i], MembersOf(cb.kids), caseSensitive);
      var p := FirstOf(cb, ca.kids[i], caseSensitive).value;
      SameIsAlike(ta.kids[i], tb.kids[p], ca.kids[i], cb.kids[p], caseSensitive);
    }
    forall j | 0 <= j < |cb.kids|
      ensures FirstAlike(ta, tb, ca, cb, j, caseSensitive)
    {
      MemberJson(cb, ca, j, caseSensitive);
      assert HasSame(MembersOf(cb.kids)[j], MembersOf(ca.kids), caseSensitive);
      var p := FirstOf(ca, cb.kids[j], caseSensitive).value;
      SameIsSymmetric(JsonOf(cb.kids[j]), JsonOf(ca.kids[p]), caseSensitive);
      SameIsAlike(ta.kids[p], tb.kids[j], ca.kids[p], cb.kids[j], caseSensitive);
    }
  }

  lemma AtIs(ta: Tree, tb: Tree, ca: Content, cb: Content, i: nat, caseSensitive: bool)
    requires Paired(ta, ca) && Paired(tb, cb) && i < |ca.kids| && i < |cb.kids|
    ensures AlikeAt(ta, tb, ca, cb, i, caseSensitive)
            <==> Alike(ta.kids[i], tb.kids[i], ca.kids[i], cb.kids[i], caseSensitive)
  {}

  lemma LeavesMeanSame(ta: Tree, tb: Tree, ca: Content, cb: Content, caseSensitive: bool)
    requires Paired(ta, ca) && Paired(tb, cb) && ta.root != tb.root && Alike(ta, tb, ca, cb, caseSensitive)
    ensures ca.says.kind == cb.says.kind
    ensures ca.says.kind != ArrayKind && ca.says.kind != ObjectKind ==> JsonOf(ca) == JsonOf(cb)
  {}

  /** Alike trees have the same meaning, and both are consistent or neither is. */
  lemma {:induction false} AlikeMeansSame(a: Item, b: Item, ta: Tree, tb: Tree, ca: Content, cb: Content,
                                          caseSensitive: bool)
    requires Stands(a, ta, ca) && Stands(b, tb, cb) && Paired(ta, ca) && Paired(tb, cb)
    requires Alike(ta, tb, ca, cb, caseSensitive)
    ensures MeansSame(JsonOf(ca), JsonOf(cb), caseSensitive)
    decreases ca, 2
  {
    RootStands(a, ta, ca);
    RootStands(b, tb, cb);
    hide Stands, FirstOf, MeaningOf, Consistent, AlikeAt;
    if a == b {
      StandsForOne(a, ta, tb, ca, cb);
    } else {
      LeavesMeanSame(ta, tb, ca, cb, caseSensitive);
      KindIs(ca);
      KindIs(cb);
      hide JsonOf;
      if ca.says.kind == ArrayKind {
        ArraysAlike(ta, tb, ca, cb, caseSensitive);
        hide Alike, MeansSame;
        forall i | 0 <= i < |ca.kids|
          ensures MeansSame(ItemsOf(ca.kids)[i], ItemsOf(cb.kids)[i], caseSensitive)
        {
          AtIs(ta, tb, ca, cb, i, caseSensitive);
          KidStands(a, ta, ca, i);
          KidStands(b, tb, cb, i);
          AlikeMeansSame(ta.kids[i].root, tb.kids[i].root, ta.kids[i], tb.kids[i], ca.kids[i], cb.kids[i],
                         caseSensitive);
        }
        ListsMeanSame(ItemsOf(ca.kids), ItemsOf(cb.kids), caseSensitive);
      } else if ca.says.kind == ObjectKind {
        AlikeMeansSameObjects(a, b, ta, tb, ca, cb, caseSensitive);
      }
    }
  }

  lemma AlikeMeansSameObjects(a: Item, b: Item, ta: Tree, tb: Tree, ca: Content, cb: Content, caseSensitive: bool)
    requires Stands(a, ta, ca) && Stands(b, tb, cb) && a == ta.root && b == tb.root
    requires Paired(ta, ca) && Paired(tb, cb) && ta.root != tb.root && ca.says.kind == cb.says.kind == ObjectKind
    requires Alike(ta, tb, ca, cb, caseSensitive)
    ensures MeansSame(JsonOf(ca), JsonOf(cb), caseSensitive)
    decreases ca, 1
  {
    hide Stands, FirstOf, MeaningOf, Consistent, AlikeAt;
    KindIs(ca);
    KindIs(cb);
    RootStands(a, ta, ca);
    RootStands(b, tb, cb);
    hide JsonOf;
    MembersAlike(ta, tb, ca, cb, caseSensitive);
    hide Alike, MeansSame;
    forall i | 0 <= i < |ca.kids|
      ensures HasMeaning(MembersOf(ca.kids)[i], MembersOf(cb.kids), caseSensitive)
    {
      assert AlikeFirst(ta, tb, ca, cb, i, caseSensitive);
      MemberJson(ca, cb, i, caseSensitive);
      var p := FirstOf(cb, ca.kids[i], caseSensitive).value;
      KidStands(a, ta, ca, i);
      KidStands(b, tb, cb, p);
      AlikeMeansSame(ta.kids[i].root, tb.kids[p].root, ta.kids[i], tb.kids[p], ca.kids[i], cb.kids[p],
                     caseSensitive);
    }
    forall j | 0 <= j < |cb.kids|
      ensures HasMeaning(MembersOf(cb.kids)[j], MembersOf(ca.kids), caseSensitive)
    {
      assert FirstAlike(ta, tb, ca, cb, j, caseSensitive);
      MemberJson(cb, ca, j, caseSensitive);
      var p := FirstOf(ca, cb.kids[j], caseSensitive).value;
      KidStands(a, ta, ca, p);
      KidStands(b, tb, cb, j);
      AlikeMeansSame(ta.kids[p].root, tb.kids[j].root, ta.kids[p], tb.kids[j], ca.kids[p], cb.kids[j],
                     caseSensitive);
      MeansSameBack(JsonOf(ca.kids[p]), JsonOf(cb.kids[j]), caseSensitive);
    }
    MapsMeanSame(MembersOf(ca.kids), MembersOf(cb.kids), caseSensitive);
  }

  lemma MeansSameBack(a: Json, b: Json, caseSensitive: bool)
    requires MeansSame(a, b, caseSensitive)
    ensures MeansSame(b, a, caseSensitive)
  {}

  /** Comparable trees are alike exactly if they are identical or say the same. */
  lemma {:induction false} AlikeIsSame(a: Item, b: Item, ta: Tree, tb: Tree, ca: Content, cb: Content,
                                       caseSensitive: bool)
    requires Stands(a, ta, ca) && Stands(b, tb, cb) && Paired(ta, ca) && Paired(tb, cb)
    requires Comparable(ta, tb, ca, cb, caseSensitive) && Alike(ta, tb, ca, cb, caseSensitive)
    ensures a == b || Same(JsonOf(ca), JsonOf(cb), caseSensitive)
    decreases ca, 2
  {
    RootStands(a, ta, ca);
    RootStands(b, tb, cb);
    hide Stands, FirstOf, Same, AlikeAt, Comparable;
    if a != b {
      LeavesMeanSame(ta, tb, ca, cb, caseSensitive);
      Leaves(ca, cb, caseSensitive);
      KindIs(ca);
      KindIs(cb);
      hide JsonOf;
      if ca.says.kind == ArrayKind {
        ArraysAlike(ta, tb, ca, cb, caseSensitive);
        hide Alike;
        forall i | 0 <= i < |ca.kids|
          ensures Same(ItemsOf(ca.kids)[i], ItemsOf(cb.kids)[i], caseSensitive)
        {
          AtIs(ta, tb, ca, cb, i, caseSensitive);
          KidIsSame(a, b, ta, tb, ca, cb, i, i, caseSensitive);
        }
        ArraysAreTheSame(ItemsOf(ca.kids), ItemsOf(cb.kids), caseSensitive);
      } else if ca.says.kind == ObjectKind {
        AlikeIsSameObjects(a, b, ta, tb, ca, cb, caseSensitive);
      }
    }
  }

  lemma AlikeIsSameObjects(a: Item, b: Item, ta: Tree, tb: Tree, ca: Content, cb: Content, caseSensitive: bool)
    requires Stands(a, ta, ca) && Stands(b, tb, cb) && a == ta.root && b == tb.root
    requires Paired(ta, ca) && Paired(tb, cb) && ta.root != tb.root && ca.says.kind == cb.says.kind == ObjectKind
    requires Comparable(ta, tb, ca, cb, caseSensitive) && Alike(ta, tb, ca, cb, caseSensitive)
    ensures Same(JsonOf(ca), JsonOf(cb), caseSensitive)
    decreases ca, 1
  {
    hide Stands, FirstOf, Same, AlikeAt, Comparable;
    KindIs(ca);
    KindIs(cb);
    RootStands(a, ta, ca);
    RootStands(b, tb, cb);
    hide JsonOf;
    MembersAlike(ta, tb, ca, cb, caseSensitive);
    hide Alike;
    forall i | 0 <= i < |ca.kids|
      ensures HasSame(MembersOf(ca.kids)[i], MembersOf(cb.kids), caseSensitive)
    {
      assert AlikeFirst(ta, tb, ca, cb, i, caseSensitive);
      MemberJson(ca, cb, i, caseSensitive);
      var p := FirstOf(cb, ca.kids[i], caseSensitive).value;
      KidIsSame(a, b, ta, tb, ca, cb, i, p, caseSensitive);
    }
    forall j | 0 <= j < |cb.kids|
      ensures HasSame(MembersOf(cb.kids)[j], MembersOf(ca.kids), caseSensitive)
    {
      assert FirstAlike(ta, tb, ca, cb, j, caseSensitive);
      MemberJson(cb, ca, j, caseSensitive);
      var p := FirstOf(ca, cb.kids[j], caseSensitive).value;
      KidIsSame(a, b, ta, tb, ca, cb, p, j, caseSensitive);
      SameIsSymmetric(JsonOf(ca.kids[p]), JsonOf(cb.kids[j]), caseSensitive);
    }
    ObjectsAreTheSame(MembersOf(ca.kids), MembersOf(cb.kids), caseSensitive);
  }

  lemma KidIsSame(a: Item, b: Item, ta: Tree, tb: Tree, ca: Content, cb: Content, i: nat, j: nat, caseSensitive: bool)
    requires Stands(a, ta, ca) && Stands(b, tb, cb) && Paired(ta, ca) && Paired(tb, cb)
    requires Comparable(ta, tb, ca, cb, caseSensitive) && i < |ca.kids| && j < |cb.kids|
    requires ca.says.kind == cb.says.kind && (ca.says.kind == ArrayKind || ca.says.kind == ObjectKind)
    requires Alike(ta.kids[i], tb.kids[j], ca.kids[i], cb.kids[j], caseSensitive)
    ensures Same(JsonOf(ca.kids[i]), JsonOf(cb.kids[j]), caseSensitive)
    decreases ca, 0
  {
    hide Stands, Alike, Same, Comparable, JsonOf;
    KidStands(a, ta, ca, i);
    KidStands(b, tb, cb, j);
    KidsAreComparable(a, b, ta, tb, ca, cb, i, j, caseSensitive);
    AlikeIsSame(ta.kids[i].root, tb.kids[j].root, ta.kids[i], tb.kids[j], ca.kids[i], cb.kids[j], caseSensitive);
  }

  lemma WhatAlikeMeans(a: Item, b: Item, ta: Tree, tb: Tree, ca: Content, cb: Content, caseSensitive: bool)
    requires Stands(a, ta, ca) && Stands(b, tb, cb) && Paired(ta, ca) && Paired(tb, cb)
    ensures Same(JsonOf(ca), JsonOf(cb), caseSensitive) ==> Alike(ta, tb, ca, cb, caseSensitive)
    ensures Alike(ta, tb, ca, cb, caseSensitive) ==> MeansSame(JsonOf(ca), JsonOf(cb), caseSensitive)
    ensures Alike(ta, tb, ca, cb, caseSensitive) && Comparable(ta, tb, ca, cb, caseSensitive) ==>
              a == b || Same(JsonOf(ca), JsonOf(cb), caseSensitive)
  {
    hide Stands, Paired, Alike, Same, MeansSame, Comparable, JsonOf;
    if Same(JsonOf(ca), JsonOf(cb), caseSensitive) {
      SameIsAlike(ta, tb, ca, cb, caseSensitive);
    }
    if Alike(ta, tb, ca, cb, caseSensitive) {
      AlikeMeansSame(a, b, ta, tb, ca, cb, caseSensitive);
      if Comparable(ta, tb, ca, cb, caseSensitive) {
        AlikeIsSame(a, b, ta, tb, ca, cb, caseSensitive);
      }
    }
  }

  /** Two arrays that share one element are alike; if an object in it repeats a key for different values, they do not
      say the same, since they are not even the same as themselves. */
  lemma SharedElement(a: Item, b: Item, ta: Tree, tb: Tree, ca: Content, cb: Content, caseSensitive: bool)
    requires Stands(a, ta, ca) && Stands(b, tb, cb) && ca.says.kind == cb.says.kind == ArrayKind
    requires |ca.kids| == |cb.kids| == 1 && a.child == b.child
    ensures Paired(ta, ca) && Paired(tb, cb) && Alike(ta, tb, ca, cb, caseSensitive)
    ensures Same(JsonOf(ca), JsonOf(cb), caseSensitive) <==> Consistent(JsonOf(ca.kids[0]), caseSensitive)
  {
    hide Stands, Paired, Alike, AlikeAt, Same, JsonOf, Sound, Roots;
    StandsIsPaired(a, ta, ca);
    StandsIsPaired(b, tb, cb);
    PairedKids(ta, ca);
    PairedKids(tb, cb);
    OnlyKid(a, ta, ca);
    OnlyKid(b, tb, cb);
    KidStands(a, ta, ca, 0);
    KidStands(b, tb, cb, 0);
    StandsForOne(a.child, ta.kids[0], tb.kids[0], ca.kids[0], cb.kids[0]);
    IdenticalIsAlike(ta.kids[0], tb.kids[0], ca.kids[0], cb.kids[0], caseSensitive);
    AtIs(ta, tb, ca, cb, 0, caseSensitive);
    if a == b {
      IdenticalIsAlike(ta, tb, ca, cb, caseSensitive);
    } else {
      ArraysAlike(ta, tb, ca, cb, caseSensitive);
    }
    SameOnlyElement(ca, cb, caseSensitive);
  }

  lemma OnlyKid(x: Item, t: Tree, c: Content)
    requires Stands(x, t, c) && |c.kids| == 1
    ensures x == t.root && |t.kids| == 1 && x.child == t.kids[0].root
  {
    RootStands(x, t, c);
    assert Roots(t.kids)[0] == t.kids[0].root;
  }

  lemma IdenticalIsAlike(ta: Tree, tb: Tree, ca: Content, cb: Content, caseSensitive: bool)
    requires Paired(ta, ca) && Paired(tb, cb) && ta.root == tb.root
    ensures Alike(ta, tb, ca, cb, caseSensitive)
  {}

  lemma SameOnlyElement(ca: Content, cb: Content, caseSensitive: bool)
    requires ca.says.kind == cb.says.kind == ArrayKind && |ca.kids| == |cb.kids| == 1 && ca.kids[0] == cb.kids[0]
    ensures Same(JsonOf(ca), JsonOf(cb), caseSensitive) <==> Consistent(JsonOf(ca.kids[0]), caseSensitive)
  {
    KindIs(ca);
    KindIs(cb);
    hide JsonOf, Consistent, MeaningOf;
    ArraysAreTheSame(ItemsOf(ca.kids), ItemsOf(cb.kids), caseSensitive);
  }
}
