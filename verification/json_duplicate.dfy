/** `cJSON_Duplicate` of fern/cJSON.c. */
module JsonDuplicate {
  import opened JsonItems
  import opened JsonTrees

  /** A new item with the type and values of another. */
  method CopyFields(item: Item) returns (newitem: Item)
    ensures fresh(newitem) && newitem.child == null && Detached(newitem) && LabelOf(newitem) == LabelOf(item)
  {
    newitem := new Item();
    newitem.kind, newitem.valuestring := item.kind, item.valuestring;
    newitem.valueint, newitem.valuedouble, newitem.name := item.valueint, item.valuedouble, item.name;
  }

  /** A tree with one more child at the end. */
  ghost function WithChild(t: Tree, kid: Tree): Tree {
    Tree(t.root, t.kids + [kid], t.below + All(kid))
  }

  lemma WithChildIsProper(t: Tree, kid: Tree)
    requires Proper(t) && Proper(kid) && All(t) !! All(kid)
    ensures Proper(WithChild(t, kid)) && Roots(t.kids + [kid]) == Roots(t.kids) + [kid.root]
  {
    var more := WithChild(t, kid);
    forall i | 0 <= i < |more.kids|
      ensures Proper(more.kids[i]) && All(more.kids[i]) <= more.below
    {
      if i < |t.kids| {
        assert more.kids[i] == t.kids[i];
      }
    }
    forall i, j | 0 <= i < j < |more.kids|
      ensures All(more.kids[i]) !! All(more.kids[j])
    {
      assert All(t.kids[i]) <= t.below;
    }
  }

  /** The links of the tree are not among those that an append changes. */
  ghost predicate Untouched(newitem: Item, next: Item?, newchild: Item, t: Tree) {
    newitem != t.root && newitem !in t.below && newchild !in t.below && next !in t.below
  }

  /** Hooks one more item to the end of a list; trees elsewhere stay linked. */
  method Append(newitem: Item, next: Item?, newchild: Item, ghost kids: seq<Item>, ghost trees: seq<Tree>)
    requires Children(newitem, kids) && next == At(kids, |kids| - 1)
    requires Detached(newchild) && newchild !in kids
    requires forall i :: 0 <= i < |trees| ==>
               Proper(trees[i]) && Linked(trees[i]) && Untouched(newitem, next, newchild, trees[i])
    modifies newitem`child, newchild`prev, Just(next)`next
    ensures Children(newitem, kids + [newchild])
    ensures forall i :: 0 <= i < |trees| ==> Linked(trees[i])
  {
    hide Proper, Linked;
    ghost var all := kids + [newchild];
    LastIsLast(kids, newchild);
    if next != null {
      next.next := newchild;
      newchild.prev := next;
    } else {
      newitem.child := newchild;
    }
    assert forall i :: 0 <= i < |all| ==> all[i].next == At(all, i + 1);
    assert forall i :: 0 <= i < |all| ==> all[i].prev == At(all, i - 1);
    hide Distinct;
  }

  /** Hooks one more tree to the end of a list of trees. */
  method Attach(newitem: Item, next: Item?, newchild: Item, ghost t: Tree, ghost kid: Tree)
    requires Proper(t) && Linked(t) && Proper(kid) && Linked(kid) && All(t) !! All(kid)
    requires newitem == t.root && next == At(Roots(t.kids), |t.kids| - 1)
    requires newchild == kid.root && Detached(newchild)
    modifies newitem`child, newchild`prev, Just(next)`next
    ensures Proper(WithChild(t, kid)) && Linked(WithChild(t, kid))
  {
    ghost var more := WithChild(t, kid);
    LinkedIs(t);
    hide Linked;
    RootsApart(t);
    WithChildIsProper(t, kid);
    assert newchild !in kid.below && newchild !in t.below && newitem !in t.below;
    forall i | 0 <= i < |more.kids|
      ensures Proper(more.kids[i]) && Linked(more.kids[i]) && Untouched(newitem, next, newchild, more.kids[i])
    {
      if i < |t.kids| {
        assert more.kids[i] == t.kids[i] && All(t.kids[i]) <= t.below;
      }
    }
    hide Proper, Linked;
    Append(newitem, next, newchild, Roots(t.kids), more.kids);
    LinkedIs(more);
  }

  lemma ContentWithChild(t: Tree, kid: Tree)
    requires Proper(t) && Proper(kid) && All(t) !! All(kid)
    ensures Proper(WithChild(t, kid))
    ensures ContentOf(WithChild(t, kid)) == ContentOf(t).(kids := ContentOf(t).kids + [ContentOf(kid)])
  {
    WithChildIsProper(t, kid);
    ContentsWithin(t.kids, t.below, t.below + All(kid));
    assert (t.kids + [kid])[..|t.kids|] == t.kids;
  }

  /** `cJSON_Duplicate`: a tree of new items that says the same, or of just one if it does not recurse. */
  method Duplicate(item: Item?, recurse: bool, ghost t: Tree, ghost said: Content)
    returns (newitem: Item?, ghost copy: Tree)
    requires item != null ==> item == t.root && Proper(t) && Linked(t) && ContentOf(t) == said
    ensures newitem == null <==> item == null
    ensures item != null ==>
              && newitem == copy.root && Proper(copy) && Linked(copy) && Detached(newitem)
              && fresh(copy.root) && fresh(copy.below)
    ensures item != null ==> ContentOf(copy) == if recurse then said else Content(said.says, [])
    decreases t, 2
  {
    hide Proper, Linked, ContentOf, LabelOf, Detached;
    if item == null {
      return null, t;
    }
    ContentOfRoot(t);
    assert allocated(t.below);
    var made := CopyFields(item);
    assert made !in All(t) && ContentOf(t) == said && Linked(t);
    copy := DuplicateBelow(item, made, recurse, t, said);
    newitem := made;
  }

  /** The new item's children, if the duplication recurses. */
  method DuplicateBelow(item: Item, newitem: Item, recurse: bool, ghost t: Tree, ghost said: Content)
    returns (ghost copy: Tree)
    requires item == t.root && Proper(t) && Linked(t) && ContentOf(t) == said
    requires newitem !in All(t) && newitem.child == null
    modifies newitem`child
    ensures copy.root == newitem && Proper(copy) && Linked(copy) && fresh(copy.below)
    ensures ContentOf(copy) == Content(LabelOf(newitem), if recurse then said.kids else [])
    decreases t, 1
  {
    hide *;
    if recurse {
      copy := DuplicateChildren(item, newitem, t, said);
    } else {
      Leaf(newitem);
      copy := Tree(newitem, [], {});
    }
  }

  /** Hooks a copy to the list; what both say is said together. */
  method AttachAs(newitem: Item, next: Item?, newchild: Item, ghost t: Tree, ghost kid: Tree) returns (ghost more: Tree)
    requires Proper(t) && Linked(t) && Proper(kid) && Linked(kid) && All(t) !! All(kid)
    requires newitem == t.root && next == At(Roots(t.kids), |t.kids| - 1)
    requires newchild == kid.root && Detached(newchild)
    modifies newitem`child, newchild`prev, Just(next)`next
    ensures more == WithChild(t, kid) && Proper(more) && Linked(more)
    ensures newchild == At(Roots(more.kids), |t.kids|)
    ensures ContentOf(more) == Content(old(ContentOf(t)).says, old(ContentOf(t)).kids + [old(ContentOf(kid))])
  {
    hide Proper, Linked, ContentOf;
    more := WithChild(t, kid);
    assert allocated(t.below) && allocated(kid.below);
    Attach(newitem, next, newchild, t, kid);
    ContentWithChild(t, kid);
  }

  /** One turn of the walk: a child is duplicated with all that is below it, and hooked to the copies so far. */
  method CopyNext(child: Item, newitem: Item, next: Item?, ghost kid: Tree, ghost copy: Tree, ghost said: Content,
                  ghost word: Content)
    returns (newchild: Item, ghost more: Tree)
    requires child == kid.root && Proper(kid) && Linked(kid) && ContentOf(kid) == word
    requires newitem == copy.root && Proper(copy) && Linked(copy) && ContentOf(copy) == said
    requires next == At(Roots(copy.kids), |copy.kids| - 1)
    modifies newitem`child, Just(next)`next
    ensures newitem == more.root && Proper(more) && Linked(more) && fresh(more.below - copy.below)
    ensures |more.kids| == |copy.kids| + 1 && newchild == At(Roots(more.kids), |copy.kids|)
    ensures ContentOf(more) == Content(said.says, said.kids + [word])
    decreases kid, 3
  {
    hide Proper, Linked, ContentOf, LabelOf;
    assert allocated(copy.below);
    var dup, c := Duplicate(child, true, kid, word);
    newchild := dup;
    assert All(copy) !! All(c) && allocated(c.below) && ContentOf(copy) == said;
    more := AttachAs(newitem, next, newchild, copy, c);
  }

  /** The walk over the children. */
  method DuplicateChildren(item: Item, newitem: Item, ghost t: Tree, ghost said: Content) returns (ghost copy: Tree)
    requires item == t.root && Proper(t) && Linked(t) && ContentOf(t) == said
    requires newitem !in All(t) && newitem.child == null
    modifies newitem`child
    ensures copy.root == newitem && Proper(copy) && Linked(copy) && fresh(copy.below)
    ensures ContentOf(copy) == Content(LabelOf(newitem), said.kids)
    decreases t, 0
  {
    hide Proper, Linked, ContentOf, LabelOf, Siblings;
    ContentOfRoot(t);
    ghost var says := LabelOf(newitem);
    copy := Tree(newitem, [], {});
    Leaf(newitem);
    FirstKid(t);
    var child, next: Item? := item.child, null;
    ghost var k := 0;
    while child != null
      invariant k <= |t.kids| && child == At(Roots(t.kids), k) && Linked(t) && ContentOf(t) == said
      invariant copy.root == newitem && Proper(copy) && Linked(copy) && fresh(copy.below)
      invariant |copy.kids| == k && next == At(Roots(copy.kids), k - 1) && (next != null ==> fresh(next))
      invariant ContentOf(copy) == Content(says, said.kids[..k])
      decreases |t.kids| - k
    {
      KidIs(t, k);
      assert said.kids[..k + 1] == said.kids[..k] + [said.kids[k]];
      next, copy := CopyNext(child, newitem, next, t.kids[k], copy, ContentOf(copy), said.kids[k]);
      NextKid(t, k);
      LastIsBelow(copy);
      child := child.next;
      k := k + 1;
    }
    assert said.kids[..k] == said.kids;
    ContentOfRoot(copy);
  }

  lemma LastIsBelow(t: Tree)
    requires Proper(t) && t.kids != []
    ensures t.kids[|t.kids| - 1].root in t.below
  {
    RootsApart(t);
  }
}
