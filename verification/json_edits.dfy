/** The edits of sibling lists of fern/cJSON.c on whole trees: what a tree says after an edit. */
module JsonEdits {
  import opened JsonForests
  import opened JsonItems
  import opened JsonTrees
  import opened JsonValues

  /** The trees under a root. */
  ghost function Below(t: Tree, v: Content): Forest {
    Forest(t.kids, t.below, v.kids)
  }

  lemma BelowIsGrown(x: Item, t: Tree, v: Content)
    requires Stands(x, t, v)
    ensures Grown(Below(t, v)) && Children(x, Roots(t.kids)) && x == t.root && x !in t.below
    ensures 0 !in x.valuestring && v.says == LabelOf(x) && (x.kind == ObjectKind ==> AllNamed(v.kids))
  {
    ChildrenOf(x, t, v);
    RootStands(x, t, v);
    RootOutside(x, t, v);
    hide Proper, Linked, ContentOf, Children;
    forall k | 0 <= k < |t.kids|
      ensures k < |v.kids| && Stands(t.kids[k].root, t.kids[k], v.kids[k]) && All(t.kids[k]) <= t.below
    {
      KidStands(x, t, v, k);
    }
    KidsApart(x, t, v);
  }

  lemma KidsApart(x: Item, t: Tree, v: Content)
    requires Stands(x, t, v)
    ensures Apart(t.kids)
  {}

  /** Some of the trees of a forest, each at most once, in any order. */
  ghost predicate Picked(f: Forest, from: Forest, places: seq<nat>) {
    && |f.trees| == |f.says| == |places| && |from.trees| == |from.says|
    && (forall i :: 0 <= i < |places| ==> places[i] < |from.trees|)
    && (forall i :: 0 <= i < |places| ==>
          f.trees[i] == from.trees[places[i]] && f.says[i] == from.says[places[i]] && All(f.trees[i]) <= f.items)
    && (forall i, j :: 0 <= i < j < |places| ==> places[i] != places[j])
  }

  lemma PickedIsGrown(f: Forest, from: Forest, places: seq<nat>)
    requires Grown(from) && Picked(f, from, places)
    ensures Grown(f)
  {
    hide Stands;
    forall i, j | 0 <= i < j < |f.trees|
      ensures All(f.trees[i]) !! All(f.trees[j])
    {
      if places[i] < places[j] {
        assert All(from.trees[places[i]]) !! All(from.trees[places[j]]);
      } else {
        assert All(from.trees[places[j]]) !! All(from.trees[places[i]]);
      }
    }
    forall i | 0 <= i < |f.trees|
      ensures f.trees[i].root in All(f.trees[i]) && Stands(f.trees[i].root, f.trees[i], f.says[i])
    {
      assert f.trees[i] == from.trees[places[i]];
    }
  }

  /** The tree under `x` once it is linked to the roots of another forest. */
  ghost function Under(x: Item, f: Forest): Tree {
    Tree(x, f.trees, f.items)
  }

  lemma OneMoreNamed(v: Content, vi: Content)
    requires v.says.kind == ObjectKind ==> AllNamed(v.kids) && Named(vi)
    ensures v.says.kind == ObjectKind ==> AllNamed(v.kids + [vi])
  {}

  // ----- Append -----

  /** `cJSON_AddItemToArray`: the item's tree becomes the last child. */
  method Add(parent: Item, item: Item, ghost t: Tree, ghost v: Content, ghost ti: Tree, ghost vi: Content)
    returns (ghost t': Tree)
    requires Stands(parent, t, v) && Stands(item, ti, vi) && Detached(item) && All(t) !! All(ti)
    requires v.says.kind == ObjectKind ==> Named(vi)
    modifies parent`child, item`prev, t.below`next
    ensures Stands(parent, t', v.(kids := v.kids + [vi])) && t'.below == t.below + All(ti)
  {
    hide Stands, Children, Detached, AllNamed;
    BelowIsGrown(parent, t, v);
    ghost var f := With(Below(t, v), ti, vi);
    RootStands(item, ti, vi);
    WithIsGrown(Below(t, v), ti, vi);
    RootsInside(Below(t, v));
    RootsInside(f);
    OneMoreNamed(v, vi);
    assert forall i :: 0 <= i < |f.trees| ==> f.trees[i].below <= All(f.trees[i]) <= f.items;
    var ok := AddItemToArray(parent, item, Roots(t.kids));
    Rooted(parent, f);
    t' := Under(parent, f);
  }

  // ----- Insert -----

  /** The forest with a tree put in at `k`. */
  ghost function WithAt(f: Forest, k: nat, ti: Tree, vi: Content): Forest
    requires k <= |f.trees| == |f.says|
  {
    Forest(Inserted(f.trees, k, ti), f.items + All(ti), Inserted(f.says, k, vi))
  }

  /** Where an element comes from when one is put in at `k` of `n`. */
  function Source(k: nat, n: nat, i: nat): nat {
    if i < k then i else if i == k then n else i - 1
  }

  lemma SourcesDiffer(k: nat, n: nat)
    requires k <= n
    ensures forall i :: 0 <= i <= n ==> Source(k, n, i) <= n
    ensures forall i, j :: 0 <= i < j <= n ==> Source(k, n, i) != Source(k, n, j)
  {}

  lemma InsertedAt<T>(s: seq<T>, k: nat, x: T, i: nat)
    requires k <= |s| && i <= |s|
    ensures Source(k, |s|, i) <= |s| && Inserted(s, k, x)[i] == (s + [x])[Source(k, |s|, i)]
  {}

  lemma RootsInserted(trees: seq<Tree>, k: nat, ti: Tree)
    requires k <= |trees|
    ensures Roots(Inserted(trees, k, ti)) == Inserted(Roots(trees), k, ti.root)
  {}

  lemma WithAtIsGrown(f: Forest, k: nat, ti: Tree, vi: Content)
    requires Grown(f) && k <= |f.trees| && Stands(ti.root, ti, vi) && All(ti) !! f.items
    ensures Grown(WithAt(f, k, ti, vi))
    ensures Roots(WithAt(f, k, ti, vi).trees) == Inserted(Roots(f.trees), k, ti.root)
  {
    WithIsGrown(f, ti, vi);
    RootsInserted(f.trees, k, ti);
    hide Stands, Grown, Inserted, Roots, Source, All;
    var n := |f.trees|;
    var more, all := WithAt(f, k, ti, vi), With(f, ti, vi);
    var places := seq(n + 1, i requires 0 <= i < n + 1 => Source(k, n, i));
    SourcesDiffer(k, n);
    forall i | 0 <= i < n + 1
      ensures more.trees[i] == all.trees[places[i]] && more.says[i] == all.says[places[i]]
      ensures All(more.trees[i]) <= more.items
    {
      InsertedAt(f.trees, k, ti, i);
      InsertedAt(f.says, k, vi, i);
      InsideOf(all, places[i]);
    }
    PickedIsGrown(more, all, places);
  }

  lemma InsideOf(f: Forest, k: nat)
    requires Grown(f) && k < |f.trees|
    ensures All(f.trees[k]) <= f.items
  {}

  lemma NamedAt(v: Content, k: nat, vi: Content)
    requires k <= |v.kids| && (v.says.kind == ObjectKind ==> AllNamed(v.kids) && Named(vi))
    ensures v.says.kind == ObjectKind ==> AllNamed(Inserted(v.kids, k, vi))
  {}

  /** `cJSON_InsertItemInArray`: the item's tree becomes the child at `which`, or the last one past the end. */
  method Insert(parent: Item, which: int, item: Item, ghost t: Tree, ghost v: Content, ghost ti: Tree,
                ghost vi: Content)
    returns (ghost t': Tree)
    requires Stands(parent, t, v) && Stands(item, ti, vi) && Detached(item) && All(t) !! All(ti)
    requires v.says.kind == ObjectKind ==> Named(vi)
    modifies parent`child, item`prev, item`next, t.below`next, t.below`prev
    ensures which < 0 ==> Stands(parent, t, v) && t' == t
    ensures which >= 0 ==>
              var k := InsertionPlace(which, |v.kids|);
              && k <= |v.kids| && Stands(parent, t', v.(kids := Inserted(v.kids, k, vi)))
              && t'.below == t.below + All(ti)
  {
    hide Stands, Children, Detached, AllNamed;
    BelowIsGrown(parent, t, v);
    RootsInside(Below(t, v));
    if which < 0 {
      return t;
    }
    ghost var k := InsertionPlace(which, |t.kids|);
    ghost var f := WithAt(Below(t, v), k, ti, vi);
    RootStands(item, ti, vi);
    WithAtIsGrown(Below(t, v), k, ti, vi);
    RootsInside(f);
    NamedAt(v, k, vi);
    assert forall i :: 0 <= i < |f.trees| ==> f.trees[i].below <= All(f.trees[i]) <= f.items;
    InsertItemInArray(parent, which, item, Roots(t.kids));
    Rooted(parent, f);
    t' := Under(parent, f);
  }

  // ----- Detach -----

  function Removed<T>(s: seq<T>, k: nat): (r: seq<T>)
    requires k < |s|
    ensures |r| == |s| - 1
  {
    s[..k] + s[k + 1..]
  }

  /** The forest without the tree at `k`. */
  ghost function Without(f: Forest, k: nat): Forest
    requires k < |f.trees| == |f.says|
  {
    Forest(Removed(f.trees, k), f.items - All(f.trees[k]), Removed(f.says, k))
  }

  /** Where an element comes from when the one at `k` is taken out. */
  function Remaining(k: nat, i: nat): nat {
    if i < k then i else i + 1
  }

  lemma RemainingDiffer(k: nat)
    ensures forall i: nat, j: nat :: i < j ==> Remaining(k, i) < Remaining(k, j)
  {}

  lemma RemovedAt<T>(s: seq<T>, k: nat, i: nat)
    requires k < |s| && i < |s| - 1
    ensures Remaining(k, i) < |s| && Remaining(k, i) != k && Removed(s, k)[i] == s[Remaining(k, i)]
  {}

  lemma RootsRemoved(trees: seq<Tree>, k: nat)
    requires k < |trees|
    ensures Roots(Removed(trees, k)) == Roots(trees)[..k] + Roots(trees)[k + 1..]
  {}

  lemma InsideWithout(f: Forest, k: nat, j: nat)
    requires Grown(f) && k < |f.trees| && j < |f.trees| && j != k
    ensures All(f.trees[j]) <= f.items - All(f.trees[k])
  {
    assert j < k ==> All(f.trees[j]) !! All(f.trees[k]);
    assert k < j ==> All(f.trees[k]) !! All(f.trees[j]);
  }

  lemma WithoutIsGrown(f: Forest, k: nat)
    requires Grown(f) && k < |f.trees|
    ensures Grown(Without(f, k))
    ensures Roots(Without(f, k).trees) == Roots(f.trees)[..k] + Roots(f.trees)[k + 1..]
  {
    RootsRemoved(f.trees, k);
    hide Stands, Grown, Removed, Roots, Remaining, All;
    var n, rest := |f.trees|, Without(f, k);
    var places := seq(n - 1, i requires 0 <= i < n - 1 => Remaining(k, i));
    RemainingDiffer(k);
    forall i | 0 <= i < n - 1
      ensures places[i] < n && rest.trees[i] == f.trees[places[i]] && rest.says[i] == f.says[places[i]]
      ensures All(rest.trees[i]) <= rest.items
    {
      RemovedAt(f.trees, k, i);
      RemovedAt(f.says, k, i);
      InsideWithout(f, k, places[i]);
    }
    PickedIsGrown(rest, f, places);
  }

  lemma NamedWithout(v: Content, k: nat)
    requires k < |v.kids| && (v.says.kind == ObjectKind ==> AllNamed(v.kids))
    ensures v.says.kind == ObjectKind ==> AllNamed(Removed(v.kids, k))
  {}

  /** `cJSON_DetachItemViaPointer`: the child's tree is taken out, and stands alone. */
  method Detach(parent: Item, item: Item, ghost t: Tree, ghost v: Content, ghost k: nat) returns (ghost t': Tree)
    requires Stands(parent, t, v) && k < |t.kids| && t.kids[k].root == item
    modifies parent`child, t.below`next, t.below`prev
    ensures k < |v.kids| && Stands(parent, t', v.(kids := Removed(v.kids, k)))
    ensures t'.below == t.below - All(t.kids[k])
    ensures Stands(item, t.kids[k], v.kids[k]) && Detached(item)
  {
    hide Stands, Children, Detached, AllNamed;
    BelowIsGrown(parent, t, v);
    ghost var f := Without(Below(t, v), k);
    RootsInside(Below(t, v));
    WithoutIsGrown(Below(t, v), k);
    RootsInside(f);
    NamedWithout(v, k);
    assert forall i :: 0 <= i < |t.kids| ==> t.kids[i].below <= All(t.kids[i]) <= t.below;
    assert forall i :: 0 <= i < |f.trees| ==> f.trees[i] in t.kids;
    var r := DetachItemViaPointer(parent, item, Roots(t.kids), k);
    Rooted(parent, f);
    t' := Under(parent, f);
  }

  // ----- Replace -----

  /** The forest with another tree at `k`. */
  ghost function Exchanged(f: Forest, k: nat, ti: Tree, vi: Content): Forest
    requires k < |f.trees| == |f.says|
  {
    Forest(f.trees[k := ti], f.items - All(f.trees[k]) + All(ti), f.says[k := vi])
  }

  lemma ExchangedIsGrown(f: Forest, k: nat, ti: Tree, vi: Content)
    requires Grown(f) && k < |f.trees| && Stands(ti.root, ti, vi) && All(ti) !! f.items
    ensures Grown(Exchanged(f, k, ti, vi))
    ensures Roots(Exchanged(f, k, ti, vi).trees) == Roots(f.trees)[k := ti.root]
  {
    WithIsGrown(f, ti, vi);
    hide Stands;
    var n := |f.trees|;
    PickedIsGrown(Exchanged(f, k, ti, vi), With(f, ti, vi),
                  seq(n, i requires 0 <= i < n => if i == k then n else i));
  }

  lemma NamedExchanged(v: Content, k: nat, vi: Content)
    requires k < |v.kids| && (v.says.kind == ObjectKind ==> AllNamed(v.kids) && Named(vi))
    ensures v.says.kind == ObjectKind ==> AllNamed(v.kids[k := vi])
  {}

  /** `cJSON_ReplaceItemViaPointer`: another tree takes the place of the child's, which stands alone; nothing changes
      if the child is to replace itself. */
  method Replace(parent: Item, item: Item, replacement: Item, ghost t: Tree, ghost v: Content, ghost k: nat,
                 ghost ti: Tree, ghost vi: Content)
    returns (ghost t': Tree)
    requires Stands(parent, t, v) && k < |t.kids| && t.kids[k].root == item
    requires replacement != item ==>
               Stands(replacement, ti, vi) && All(t) !! All(ti) && (v.says.kind == ObjectKind ==> Named(vi))
    modifies parent`child, replacement`next, replacement`prev, t.below`next, t.below`prev
    ensures replacement == item ==> Stands(parent, t, v) && t' == t
    ensures replacement != item ==>
              && k < |v.kids| && Stands(parent, t', v.(kids := v.kids[k := vi]))
              && t'.below == t.below - All(t.kids[k]) + All(ti)
              && Stands(item, t.kids[k], v.kids[k]) && Detached(item)
  {
    hide Stands, Children, Detached, AllNamed;
    BelowIsGrown(parent, t, v);
    RootsInside(Below(t, v));
    ghost var f := Below(t, v);
    if replacement != item {
      f := Exchanged(Below(t, v), k, ti, vi);
      RootStands(replacement, ti, vi);
      ExchangedIsGrown(Below(t, v), k, ti, vi);
      NamedExchanged(v, k, vi);
    }
    assert Roots(f.trees) == Roots(t.kids)[k := replacement];
    RootsInside(f);
    assert forall i :: 0 <= i < |t.kids| ==> t.kids[i].below <= All(t.kids[i]) <= t.below;
    assert forall i :: 0 <= i < |f.trees| ==> f.trees[i].below <= All(f.trees[i]);
    var ok := ReplaceItemViaPointer(parent, item, replacement, Roots(t.kids), k);
    Rooted(parent, f);
    t' := Under(parent, f);
  }
}
