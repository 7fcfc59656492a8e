/** The JSON value that a tree of linked items stands for. */
module JsonValues {
  import opened Bits
  import opened JsonItems
  import opened JsonText
  import opened JsonTrees

  ghost function JsonOf(c: Content): Json
    decreases c, 0
  {
    match c.says.kind
    case NullKind => Null
    case FalseKind => False
    case TrueKind => True
    case NumberKind => Number(c.says.valuedouble)
    case StringKind => String(c.says.valuestring)
    case ArrayKind => Array(ItemsOf(c.kids))
    case ObjectKind => Object(MembersOf(c.kids))
  }

  ghost function ItemsOf(kids: seq<Content>): (r: seq<Json>)
    ensures |r| == |kids| && forall k :: 0 <= k < |kids| ==> r[k] == JsonOf(kids[k])
    decreases kids, 1
  {
    seq(|kids|, i requires 0 <= i < |kids| => JsonOf(kids[i]))
  }

  ghost function NameOf(c: Content): seq<Byte> {
    if c.says.name.Some? then c.says.name.value else []
  }

  ghost function MembersOf(kids: seq<Content>): (r: seq<Member>)
    ensures |r| == |kids| && forall k :: 0 <= k < |kids| ==> r[k] == Member(NameOf(kids[k]), JsonOf(kids[k]))
    decreases kids, 1
  {
    seq(|kids|, i requires 0 <= i < |kids| => Member(NameOf(kids[i]), JsonOf(kids[i])))
  }

  ghost predicate Named(c: Content) {
    c.says.name.Some? && 0 !in c.says.name.value
  }

  /** Strings are C strings, and the members of objects have keys. */
  ghost predicate Sound(c: Content) {
    && 0 !in c.says.valuestring
    && (forall i :: 0 <= i < |c.kids| ==> Sound(c.kids[i]) && (c.says.kind == ObjectKind ==> Named(c.kids[i])))
  }

  /** The integer copies of values are those of the parser. */
  ghost predicate Exact(c: Content) {
    && c.says.valueint == (match c.says.kind
                           case NumberKind => AsInt(c.says.valuedouble)
                           case TrueKind => 1
                           case _ => 0)
    && AllExact(c.kids)
  }

  ghost predicate AllExact(kids: seq<Content>) {
    forall i :: 0 <= i < |kids| ==> Exact(kids[i])
  }

  lemma OneMoreExact(kids: seq<Content>, kid: Content)
    requires AllExact(kids) && Exact(kid)
    ensures AllExact(kids + [kid])
  {
    hide Exact;
  }

  /** The item is the root of a linked tree that says `c`. */
  ghost predicate Stands(x: Item, t: Tree, c: Content)
    reads x`child, x`kind, x`valuestring, x`valueint, x`valuedouble, x`name, t.below
  {
    x == t.root && Proper(t) && Linked(t) && ContentOf(t) == c && Sound(c)
  }

  lemma StandsIs(x: Item, t: Tree, c: Content)
    ensures Stands(x, t, c) <==> x == t.root && Proper(t) && Linked(t) && ContentOf(t) == c && Sound(c)
  {}

  lemma KidStands(x: Item, t: Tree, c: Content, k: nat)
    requires Stands(x, t, c) && k < |t.kids|
    ensures k < |c.kids| && Stands(t.kids[k].root, t.kids[k], c.kids[k]) && c.kids[k].says == LabelOf(t.kids[k].root)
    ensures t.kids[k].root.next == At(Roots(t.kids), k + 1)
    ensures All(t.kids[k]) <= t.below && (c.says.kind == ObjectKind ==> Named(c.kids[k]))
  {
    hide Proper, Linked, ContentOf;
    KidIs(t, k);
    NextKid(t, k);
    ContentOfRoot(t);
    ContentOfRoot(t.kids[k]);
  }

  lemma RootStands(x: Item, t: Tree, c: Content)
    requires Stands(x, t, c)
    ensures x == t.root && x.child == At(Roots(t.kids), 0) && |t.kids| == |c.kids| && c.says == LabelOf(x) && Sound(c)
  {
    hide Proper, Linked, ContentOf;
    FirstKid(t);
    ContentOfRoot(t);
  }

  lemma {:induction false} SameSiblings(parent: Item, a: seq<Item>, b: seq<Item>, i: nat)
    requires Children(parent, a) && Children(parent, b)
    ensures At(a, i) == At(b, i)
  {
    if i > 0 {
      SameSiblings(parent, a, b, i - 1);
    }
  }

  /** The links decide the tree: an item is the root of one only. */
  lemma {:induction false} StandsForOne(x: Item, t: Tree, t': Tree, c: Content, c': Content)
    requires Stands(x, t, c) && Stands(x, t', c')
    ensures c == c' && Roots(t.kids) == Roots(t'.kids)
    decreases c
  {
    ChildrenOf(x, t, c);
    ChildrenOf(x, t', c');
    RootStands(x, t, c);
    RootStands(x, t', c');
    hide Stands, Children;
    forall i: nat
      ensures At(Roots(t.kids), i) == At(Roots(t'.kids), i)
    {
      SameSiblings(x, Roots(t.kids), Roots(t'.kids), i);
    }
    assert |t.kids| == |t'.kids| by {
      assert At(Roots(t.kids), |t.kids|) == null && At(Roots(t'.kids), |t'.kids|) == null;
    }
    forall k | 0 <= k < |c.kids|
      ensures c.kids[k] == c'.kids[k]
    {
      KidStands(x, t, c, k);
      KidStands(x, t', c', k);
      assert At(Roots(t.kids), k) == t.kids[k].root && At(Roots(t'.kids), k) == t'.kids[k].root;
      StandsForOne(t.kids[k].root, t.kids[k], t'.kids[k], c.kids[k], c'.kids[k]);
    }
  }

  lemma ChildrenOf(x: Item, t: Tree, c: Content)
    requires Stands(x, t, c)
    ensures Children(x, Roots(t.kids))
  {}

  lemma {:induction false} SoundIsCStrings(c: Content)
    requires Sound(c)
    ensures CStrings(JsonOf(c))
  {
    forall i | 0 <= i < |c.kids|
      ensures CStrings(JsonOf(c.kids[i])) && (c.says.kind == ObjectKind ==> MemberCStrings(MembersOf(c.kids)[i]))
    {
      SoundIsCStrings(c.kids[i]);
    }
  }

  lemma ItemsSnoc(kids: seq<Content>, kid: Content)
    ensures ItemsOf(kids + [kid]) == ItemsOf(kids) + [JsonOf(kid)]
  {
    hide JsonOf;
  }

  lemma MembersSnoc(kids: seq<Content>, kid: Content)
    ensures MembersOf(kids + [kid]) == MembersOf(kids) + [Member(NameOf(kid), JsonOf(kid))]
  {
    hide JsonOf, NameOf;
  }
}
