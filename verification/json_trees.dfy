/** Whole trees of linked items, and what they say. */
module JsonTrees {
  import opened Bits
  import opened JsonItems
  import opened Options

  /** The shape of a tree: which item is where, and which items are below the root. */
  datatype Tree = Tree(root: Item, kids: seq<Tree>, below: set<Item>)

  ghost function Roots(kids: seq<Tree>): (r: seq<Item>)
    ensures |r| == |kids| && forall i :: 0 <= i < |kids| ==> r[i] == kids[i].root
  {
    seq(|kids|, i requires 0 <= i < |kids| => kids[i].root)
  }

  ghost function All(t: Tree): set<Item> {
    {t.root} + t.below
  }

  /** No item is in the tree twice. */
  ghost predicate Proper(t: Tree) {
    && t.root !in t.below
    && (forall i :: 0 <= i < |t.kids| ==> Proper(t.kids[i]) && All(t.kids[i]) <= t.below)
    && Apart(t.kids)
  }

  ghost predicate Apart(kids: seq<Tree>) {
    forall i, j :: 0 <= i < j < |kids| ==> All(kids[i]) !! All(kids[j])
  }

  /** The links of the heap make up the tree. */
  ghost predicate Linked(t: Tree)
    requires Proper(t)
    reads t.root`child, t.below`child, t.below`next, t.below`prev
  {
    && Children(t.root, Roots(t.kids))
    && forall i :: 0 <= i < |t.kids| ==> Linked(t.kids[i])
  }

  /** What an item says, without its links. */
  datatype Label = Label(kind: Kind, valuestring: seq<Byte>, valueint: int, valuedouble: real, name: Option<seq<Byte>>)

  ghost function LabelOf(x: Item): Label
    reads x`kind, x`valuestring, x`valueint, x`valuedouble, x`name
  {
    Label(x.kind, x.valuestring, x.valueint, x.valuedouble, x.name)
  }

  /** What a tree says. */
  datatype Content = Content(says: Label, kids: seq<Content>)

  ghost function ContentOf(t: Tree): Content
    requires Proper(t)
    reads t.root`kind, t.root`valuestring, t.root`valueint, t.root`valuedouble, t.root`name
    reads t.below`kind, t.below`valuestring, t.below`valueint, t.below`valuedouble, t.below`name
    decreases t, 1
  {
    Content(LabelOf(t.root), ContentsOf(t.kids, t.below))
  }

  /** What sibling trees say, all of whose items are in `items`. */
  ghost function ContentsOf(kids: seq<Tree>, items: set<Item>): (r: seq<Content>)
    requires forall i :: 0 <= i < |kids| ==> Proper(kids[i]) && All(kids[i]) <= items
    reads items`kind, items`valuestring, items`valueint, items`valuedouble, items`name
    ensures |r| == |kids|
    decreases kids, 0
  {
    if kids == [] then []
    else
      var last := |kids| - 1;
      assert All(kids[last]) <= items && kids[last].root in All(kids[last]);
      ContentsOf(kids[..last], items) + [ContentOf(kids[last])]
  }

  lemma LastIsLast(kids: seq<Item>, x: Item)
    requires Distinct(kids) && x !in kids
    ensures Distinct(kids + [x])
    ensures forall i :: 0 <= i < |kids| - 1 ==> kids[i] != At(kids, |kids| - 1)
  {}

  /** The roots of children are apart, and outside what is below any of them. */
  lemma RootsApart(t: Tree)
    requires Proper(t)
    ensures Distinct(Roots(t.kids))
    ensures forall i :: 0 <= i < |t.kids| ==> t.kids[i].root in t.below
    ensures forall i, j :: 0 <= i < |t.kids| && 0 <= j < |t.kids| ==> t.kids[i].root !in t.kids[j].below
  {
    forall i, j | 0 <= i < |t.kids| && 0 <= j < |t.kids|
      ensures t.kids[i].root in t.below && t.kids[i].root !in t.kids[j].below
      ensures i < j ==> t.kids[i].root != t.kids[j].root
    {
      assert Proper(t.kids[i]) && t.kids[i].root in All(t.kids[i]);
      assert t.kids[j].root in All(t.kids[j]);
      assert i < j ==> All(t.kids[i]) !! All(t.kids[j]);
      assert j < i ==> All(t.kids[j]) !! All(t.kids[i]);
    }
  }

  lemma LinkedIs(t: Tree)
    requires Proper(t)
    ensures Linked(t) <==> Children(t.root, Roots(t.kids)) && forall i :: 0 <= i < |t.kids| ==> Linked(t.kids[i])
  {}

  lemma FirstKid(t: Tree)
    requires Proper(t) && Linked(t)
    ensures t.root.child == At(Roots(t.kids), 0)
  {}

  lemma NextKid(t: Tree, k: nat)
    requires Proper(t) && Linked(t) && k < |t.kids|
    ensures t.kids[k].root.next == At(Roots(t.kids), k + 1)
  {
    assert Roots(t.kids)[k] == t.kids[k].root;
  }

  lemma {:induction false} ContentsAt(kids: seq<Tree>, items: set<Item>, k: nat)
    requires k < |kids| && forall i :: 0 <= i < |kids| ==> Proper(kids[i]) && All(kids[i]) <= items
    ensures ContentsOf(kids, items)[k] == ContentOf(kids[k])
    decreases |kids|
  {
    hide Proper, ContentOf;
    var last := |kids| - 1;
    if k < last {
      ContentsAt(kids[..last], items, k);
    }
  }

  lemma {:induction false} ContentsWithin(kids: seq<Tree>, items: set<Item>, more: set<Item>)
    requires items <= more && forall i :: 0 <= i < |kids| ==> Proper(kids[i]) && All(kids[i]) <= items
    ensures ContentsOf(kids, items) == ContentsOf(kids, more)
    decreases |kids|
  {
    hide Proper, ContentOf;
    if kids != [] {
      ContentsWithin(kids[..|kids| - 1], items, more);
    }
  }

  lemma ContentOfRoot(t: Tree)
    requires Proper(t)
    ensures ContentOf(t).says == LabelOf(t.root) && |ContentOf(t).kids| == |t.kids|
  {}

  lemma KidIs(t: Tree, k: nat)
    requires Proper(t) && Linked(t) && k < |t.kids|
    ensures Proper(t.kids[k]) && Linked(t.kids[k]) && ContentOf(t.kids[k]) == ContentOf(t).kids[k]
    ensures All(t.kids[k]) <= t.below && t.kids[k].root in All(t.kids[k])
  {
    ContentsAt(t.kids, t.below, k);
  }

  lemma Leaf(x: Item)
    requires x.child == null
    ensures var t := Tree(x, [], {});
            Proper(t) && Linked(t) && ContentOf(t) == Content(LabelOf(x), [])
  {}
}
