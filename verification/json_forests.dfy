/** Sibling trees while the parser of fern/cJSON.c grows them. */
module JsonForests {
  import opened JsonItems
  import opened JsonTrees
  import opened JsonValues
  import opened Options

  /** Sibling trees, the items of them all, and what each says. */
  datatype Forest = Forest(trees: seq<Tree>, items: set<Item>, says: seq<Content>)

  ghost predicate Grown(f: Forest)
    reads f.items
  {
    && |f.trees| == |f.says| && Apart(f.trees)
    && forall i :: 0 <= i < |f.trees| ==>
         All(f.trees[i]) <= f.items && f.trees[i].root in All(f.trees[i])
         && Stands(f.trees[i].root, f.trees[i], f.says[i])
  }

  /** The roots are linked, from `head` to `last`. */
  ghost predicate Listed(f: Forest, head: Item?, last: Item?)
    reads f.items
  {
    && (forall i :: 0 <= i < |f.trees| ==> f.trees[i].root in f.items)
    && Siblings(Roots(f.trees))
    && head == At(Roots(f.trees), 0) && last == At(Roots(f.trees), |f.trees| - 1)
  }

  ghost predicate AllNamed(says: seq<Content>) {
    forall i :: 0 <= i < |says| ==> Named(says[i])
  }

  const BARE: Forest := Forest([], {}, [])

  /** A forest with one more tree. */
  ghost function With(f: Forest, t: Tree, v: Content): Forest {
    Forest(f.trees + [t], f.items + All(t), f.says + [v])
  }

  lemma RootsInside(f: Forest)
    requires Grown(f)
    ensures Distinct(Roots(f.trees))
    ensures forall i :: 0 <= i < |f.trees| ==> f.trees[i].root in f.items
    ensures forall i, j :: 0 <= i < |f.trees| && 0 <= j < |f.trees| ==> f.trees[i].root !in f.trees[j].below
  {
    forall i | 0 <= i < |f.trees|
      ensures f.trees[i].root in f.items && f.trees[i].root !in f.trees[i].below
    {
      RootOutside(f.trees[i].root, f.trees[i], f.says[i]);
    }
    hide Stands;
    forall i, j | 0 <= i < j < |f.trees|
      ensures f.trees[i].root !in All(f.trees[j]) && f.trees[j].root !in All(f.trees[i])
    {
      assert f.trees[i].root in All(f.trees[i]) && f.trees[j].root in All(f.trees[j]);
    }
  }

  lemma RootOutside(x: Item, t: Tree, v: Content)
    requires Stands(x, t, v)
    ensures x == t.root && x !in t.below
  {}

  /** Links a new item to the end of the list, or starts the list with it. */
  method Link(head: Item?, last: Item?, newItem: Item, ghost kids: seq<Item>) returns (newHead: Item)
    requires Siblings(kids) && head == At(kids, 0) && last == At(kids, |kids| - 1)
    requires Detached(newItem) && newItem !in kids
    modifies newItem`prev, Just(last)`next
    ensures Siblings(kids + [newItem]) && newHead == At(kids + [newItem], 0)
  {
    ghost var all := kids + [newItem];
    LastIsLast(kids, newItem);
    if last == null {
      newHead := newItem;
    } else {
      newHead := head;
      last.next := newItem;
      newItem.prev := last;
    }
    assert forall i :: 0 <= i < |all| ==> all[i].next == At(all, i + 1);
    assert forall i :: 0 <= i < |all| ==> all[i].prev == At(all, i - 1);
    hide Distinct;
  }

  /** The trees that are linked stay as they are. */
  method LinkNext(head: Item?, last: Item?, newItem: Item, ghost f: Forest) returns (newHead: Item)
    requires Grown(f) && Listed(f, head, last) && Detached(newItem) && newItem !in f.items
    modifies newItem`prev, Just(last)`next
    ensures Grown(f) && Siblings(Roots(f.trees) + [newItem]) && newHead == At(Roots(f.trees) + [newItem], 0)
  {
    hide Stands, Siblings;
    RootsInside(f);
    assert forall i :: 0 <= i < |f.trees| ==> f.trees[i].below <= All(f.trees[i]);
    newHead := Link(head, last, newItem, Roots(f.trees));
  }

  /** A new last item, linked to the list, whose value is still to come. */
  method NewLast(head: Item?, last: Item?, ghost f: Forest) returns (newItem: Item, newHead: Item)
    requires Grown(f) && Listed(f, head, last)
    modifies Just(last)`next
    ensures Grown(f) && Siblings(Roots(f.trees) + [newItem]) && newHead == At(Roots(f.trees) + [newItem], 0)
    ensures fresh(newItem) && newItem.child == null && newItem.name == None && newItem.valuestring == []
    ensures newItem.valueint == 0
  {
    hide Grown, Siblings;
    newItem := new Item();
    newHead := LinkNext(head, last, newItem, f);
  }

  lemma WithIsGrown(f: Forest, t: Tree, v: Content)
    requires Grown(f) && Stands(t.root, t, v) && All(t) !! f.items
    ensures Grown(With(f, t, v)) && Roots(With(f, t, v).trees) == Roots(f.trees) + [t.root]
  {
    hide Stands;
    var more := With(f, t, v);
    forall i | 0 <= i < |more.trees|
      ensures All(more.trees[i]) <= more.items && more.trees[i].root in All(more.trees[i])
      ensures Stands(more.trees[i].root, more.trees[i], more.says[i])
    {
      if i < |f.trees| {
        assert more.trees[i] == f.trees[i];
      }
    }
    forall i, j | 0 <= i < j < |more.trees|
      ensures All(more.trees[i]) !! All(more.trees[j])
    {
      assert more.trees[i] == f.trees[i] && All(f.trees[i]) <= f.items;
    }
  }

  /** The forest when that value has come. */
  lemma Grows(f: Forest, head: Item, last: Item, t: Tree, v: Content)
    requires Grown(f) && Stands(last, t, v) && last !in f.items && t.below !! f.items
    requires Siblings(Roots(f.trees) + [last]) && head == At(Roots(f.trees) + [last], 0)
    ensures Extends(With(f, t, v), f, head, last, v) && With(f, t, v).items == f.items + {last} + t.below
  {
    hide Stands, Siblings, Grown, Proper;
    RootIs(last, t, v);
    WithIsGrown(f, t, v);
    RootsInside(With(f, t, v));
  }

  /** A forest under a new root is a tree. */
  lemma Rooted(x: Item, f: Forest)
    requires Grown(f) && Children(x, Roots(f.trees)) && x !in f.items && 0 !in x.valuestring
    requires x.kind == ObjectKind ==> AllNamed(f.says)
    ensures Stands(x, Tree(x, f.trees, f.items), Content(LabelOf(x), f.says))
  {
    hide Children, Named;
    var t := Tree(x, f.trees, f.items);
    forall i | 0 <= i < |f.trees|
      ensures Proper(f.trees[i]) && All(f.trees[i]) <= f.items && Linked(f.trees[i])
      ensures ContentOf(f.trees[i]) == f.says[i] && Sound(f.says[i])
    {
      assert Stands(f.trees[i].root, f.trees[i], f.says[i]);
    }
    hide Stands;
    assert Proper(t);
    hide Proper;
    assert Linked(t);
    forall i | 0 <= i < |f.trees|
      ensures ContentsOf(t.kids, t.below)[i] == f.says[i]
    {
      ContentsAt(t.kids, t.below, i);
    }
    assert ContentOf(t) == Content(LabelOf(x), f.says);
    StandsIs(x, t, Content(LabelOf(x), f.says));
  }

  lemma LeafStands(x: Item)
    requires x.child == null && 0 !in x.valuestring
    ensures Stands(x, Tree(x, [], {}), Content(LabelOf(x), []))
  {
    Leaf(x);
  }

  /** One more tree, whose root is the new end of the list. */
  ghost predicate Extends(more: Forest, f: Forest, head: Item, last: Item, v: Content)
    reads more.items
  {
    Grown(more) && Listed(more, head, last) && last in more.items && more.says == f.says + [v]
  }

  lemma BareIsGrown()
    ensures Grown(BARE) && Siblings(Roots(BARE.trees)) && Listed(BARE, null, null)
    ensures AllNamed(BARE.says) && AllExact(BARE.says)
  {}

  lemma RootIs(x: Item, t: Tree, v: Content)
    requires Stands(x, t, v)
    ensures x == t.root && v.says == LabelOf(x)
  {
    RootStands(x, t, v);
  }

  lemma ExtendsIs(more: Forest, f: Forest, head: Item, last: Item, v: Content)
    requires Extends(more, f, head, last, v)
    ensures Grown(more) && Listed(more, head, last) && last in more.items && more.says == f.says + [v]
  {}

  lemma ListedIs(f: Forest, head: Item?, last: Item?)
    requires Listed(f, head, last)
    ensures Siblings(Roots(f.trees)) && head == At(Roots(f.trees), 0)
  {}

  /** The item becomes the root over the forest, as the parsers of arrays and objects end. */
  method Become(item: Item, kind: Kind, head: Item?, ghost f: Forest) returns (ghost t: Tree, ghost v: Content)
    requires Grown(f) && Siblings(Roots(f.trees)) && head == At(Roots(f.trees), 0)
    requires item !in f.items && 0 !in item.valuestring
    requires kind == ObjectKind ==> AllNamed(f.says)
    modifies item`kind, item`child
    ensures Stands(item, t, v) && t.below == f.items && v == Content(LabelOf(item), f.says) && item.kind == kind
    ensures item.valueint == 0 && kind != NumberKind && kind != TrueKind && AllExact(f.says) ==> Exact(v)
  {
    hide Grown, Stands, Named, AllExact;
    item.kind, item.child := kind, head;
    t, v := Tree(item, f.trees, f.items), Content(LabelOf(item), f.says);
    Rooted(item, f);
  }
}
