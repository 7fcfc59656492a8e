/** The cJSON structure: items linked to their siblings and to their first child, and the edits of sibling lists. */
module JsonItems {
  import opened Bits
  import opened Options

  datatype Kind = NullKind | FalseKind | TrueKind | NumberKind | StringKind | ArrayKind | ObjectKind

  const INT_MAX: nat := 0x7FFF_FFFF
  const INT_MIN: int := -0x8000_0000

  /** A number as an `int`: cut off toward zero, or the nearest bound if it is too large or too small. */
  function AsInt(number: real): (r: int)
    ensures -2147483648.0 <= number <= 2147483647.0 ==>
              if number >= 0.0 then r as real <= number < r as real + 1.0 else r as real - 1.0 < number <= r as real
    ensures number > 2147483647.0 ==> r == 2147483647
    ensures number < -2147483648.0 ==> r == -2147483648
  {
    if number >= INT_MAX as real then INT_MAX
    else if number <= INT_MIN as real then INT_MIN
    else if number >= 0.0 then number.Floor
    else -(-number).Floor
  }

  class Item {
    var next: Item?
    var prev: Item?
    var child: Item?
    var kind: Kind
    var valuestring: seq<Byte>
    var valueint: int
    var valuedouble: real
    /** The key, if the item is a member of an object. */
    var name: Option<seq<Byte>>

    constructor ()
      ensures next == null && prev == null && child == null && name == None && kind == NullKind
      ensures valuestring == [] && valueint == 0
    {
      next, prev, child, name := null, null, null, None;
      kind, valuestring, valueint, valuedouble := NullKind, [], 0, 0.0;
    }
  }

  ghost function At(kids: seq<Item>, i: int): Item? {
    if 0 <= i < |kids| then kids[i] else null
  }

  ghost predicate Distinct(kids: seq<Item>) {
    forall i, j :: 0 <= i < j < |kids| ==> kids[i] != kids[j]
  }

  /** `kids` is a well-formed sibling list: no item twice, `next` and `prev` inverse, null at the two ends. */
  ghost predicate Siblings(kids: seq<Item>)
    reads (set x | x in kids)`next, (set x | x in kids)`prev
  {
    && Distinct(kids)
    && (forall i :: 0 <= i < |kids| ==> kids[i].next == At(kids, i + 1) && kids[i].prev == At(kids, i - 1))
  }

  /** The children of `parent`, in order. */
  ghost predicate Children(parent: Item, kids: seq<Item>)
    reads parent`child, (set x | x in kids)`next, (set x | x in kids)`prev
  {
    parent.child == At(kids, 0) && Siblings(kids)
  }

  ghost predicate Detached(x: Item)
    reads x`next, x`prev
  {
    x.next == null && x.prev == null
  }

  /** `get_array_item`. */
  method GetArrayItem(parent: Item?, index: nat, ghost kids: seq<Item>) returns (r: Item?)
    requires parent != null ==> Children(parent, kids)
    ensures r == if parent == null then null else At(kids, index)
  {
    if parent == null {
      return null;
    }
    r := parent.child;
    var left := index;
    while r != null && left > 0
      invariant 0 <= left <= index && r == At(kids, index - left)
      decreases left
    {
      left := left - 1;
      r := r.next;
    }
  }

  /** `suffix_object`. */
  method SuffixObject(prev: Item, item: Item)
    modifies prev`next, item`prev
    ensures prev.next == item && item.prev == prev
  {
    prev.next := item;
    item.prev := prev;
  }

  ghost function Just(x: Item?): set<Item> {
    if x == null then {} else {x}
  }

  /** `add_item_to_array`: append. */
  method AddItemToArray(parent: Item?, item: Item?, ghost kids: seq<Item>) returns (ok: bool)
    requires parent != null && item != null ==> Children(parent, kids) && Detached(item) && item !in kids
    modifies Just(parent)`child, Just(item)`prev, (set x | x in kids)`next
    ensures ok <==> parent != null && item != null
    ensures ok ==> Children(parent, kids + [item])
    ensures !ok && parent != null ==> parent.child == old(parent.child)
    ensures !ok ==> forall x | x in kids :: x.next == old(x.next) && x.prev == old(x.prev)
  {
    if item == null || parent == null {
      return false;
    }
    if parent.child == null {
      parent.child := item;
    } else {
      var child := parent.child;
      ghost var i := 0;
      while child.next != null
        invariant 0 <= i < |kids| && child == kids[i]
        decreases |kids| - i
      {
        child := child.next;
        i := i + 1;
      }
      SuffixObject(child, item);
    }
    return true;
  }

  /** The place an insertion at `which` takes: past the end means at the end. */
  function InsertionPlace(which: int, length: nat): (k: nat)
    requires which >= 0
    ensures k <= length
  {
    if which < length then which else length
  }

  function Inserted<T>(kids: seq<T>, k: nat, x: T): (r: seq<T>)
    requires k <= |kids|
    ensures |r| == |kids| + 1
  {
    kids[..k] + [x] + kids[k..]
  }

  /** `cJSON_InsertItemInArray`. */
  method InsertItemInArray(parent: Item?, which: int, newItem: Item?, ghost kids: seq<Item>)
    requires parent != null ==> Children(parent, kids)
    requires parent != null && newItem != null ==> Detached(newItem) && newItem !in kids
    requires parent != null && 0 <= which < |kids| ==> newItem != null
    modifies Just(parent)`child, Just(newItem)`prev, Just(newItem)`next
    modifies (set x | x in kids)`next, (set x | x in kids)`prev
    ensures parent != null ==> Children(parent,
              if which < 0 || newItem == null then kids else Inserted(kids, InsertionPlace(which, |kids|), newItem))
  {
    if which < 0 {
      return;
    }
    var after := GetArrayItem(parent, which, kids);
    if after == null {
      var ok := AddItemToArray(parent, newItem, kids);
      assert kids[..|kids|] + [newItem] + kids[|kids|..] == kids + [newItem];
      return;
    }
    InsertBefore(parent, after, newItem, kids, which);
  }

  /** The pointer assignments of an insertion in front of an item. */
  method InsertBefore(parent: Item, after: Item, newItem: Item, ghost kids: seq<Item>, ghost k: nat)
    requires Children(parent, kids) && k < |kids| && kids[k] == after
    requires Detached(newItem) && newItem !in kids
    modifies parent`child, newItem`prev, newItem`next, (set x | x in kids)`next, (set x | x in kids)`prev
    ensures Children(parent, kids[..k] + [newItem] + kids[k..])
  {
    LinkedAt(kids, k);
    newItem.next := after;
    newItem.prev := after.prev;
    after.prev := newItem;
    if after == parent.child {
      parent.child := newItem;
    } else {
      newItem.prev.next := newItem;
    }
    ghost var all := kids[..k] + [newItem] + kids[k..];
    InsertedDistinct(kids, k, newItem);
    forall i | 0 <= i < |all|
      ensures all[i].next == At(all, i + 1) && all[i].prev == At(all, i - 1)
    {
      if i < k {
        assert all[i] == kids[i];
      } else if i > k {
        assert all[i] == kids[i - 1];
      }
    }
  }

  /** An item's neighbours, and that a list reaches no item twice. */
  lemma LinkedAt(kids: seq<Item>, k: nat)
    requires Siblings(kids) && k < |kids|
    ensures kids[k].next == At(kids, k + 1) && kids[k].prev == At(kids, k - 1)
    ensures forall i :: 0 <= i < |kids| && i != k ==> kids[i] != kids[k]
    ensures k + 1 < |kids| ==> forall i :: 0 <= i < |kids| && i != k + 1 ==> kids[i] != kids[k + 1]
    ensures k > 0 ==> forall i :: 0 <= i < |kids| && i != k - 1 ==> kids[i] != kids[k - 1]
  {}

  lemma InsertedDistinct(kids: seq<Item>, k: nat, x: Item)
    requires Distinct(kids) && k <= |kids| && x !in kids
    ensures Distinct(kids[..k] + [x] + kids[k..])
  {
    var all := kids[..k] + [x] + kids[k..];
    forall i, j | 0 <= i < j < |all|
      ensures all[i] != all[j]
    {
      if i != k {
        assert all[i] == kids[if i < k then i else i - 1];
      }
      if j != k {
        assert all[j] == kids[if j < k then j else j - 1];
      }
    }
  }

  lemma RemovedDistinct(kids: seq<Item>, k: nat)
    requires Distinct(kids) && k < |kids|
    ensures Distinct(kids[..k] + kids[k + 1..])
  {
    var rest := kids[..k] + kids[k + 1..];
    forall i, j | 0 <= i < j < |rest|
      ensures rest[i] != rest[j]
    {
      assert rest[i] == kids[if i < k then i else i + 1] && rest[j] == kids[if j < k then j else j + 1];
    }
  }

  /** The pointer assignments of a removal. */
  method Unlink(parent: Item, item: Item, ghost kids: seq<Item>, ghost k: nat)
    requires Children(parent, kids) && k < |kids| && kids[k] == item
    modifies parent`child, (set x | x in kids)`next, (set x | x in kids)`prev
    ensures Children(parent, kids[..k] + kids[k + 1..]) && Detached(item)
  {
    LinkedAt(kids, k);
    if item.prev != null {
      item.prev.next := item.next;
    }
    if item.next != null {
      item.next.prev := item.prev;
    }
    if item == parent.child {
      parent.child := item.next;
    }
    item.prev := null;
    item.next := null;
    ghost var rest := kids[..k] + kids[k + 1..];
    RemovedDistinct(kids, k);
    forall i | 0 <= i < |rest|
      ensures rest[i].next == At(rest, i + 1) && rest[i].prev == At(rest, i - 1)
    {
      if i < k {
        assert rest[i] == kids[i];
      } else {
        assert rest[i] == kids[i + 1];
      }
    }
  }

  /** `cJSON_DetachItemViaPointer`. */
  method DetachItemViaPointer(parent: Item?, item: Item?, ghost kids: seq<Item>, ghost k: nat) returns (r: Item?)
    requires parent != null && item != null ==> Children(parent, kids) && k < |kids| && kids[k] == item
    modifies Just(parent)`child, (set x | x in kids)`next, (set x | x in kids)`prev
    ensures r == if parent == null then null else item
    ensures parent != null && item != null ==> Children(parent, kids[..k] + kids[k + 1..]) && Detached(item)
    ensures parent != null && item == null ==> parent.child == old(parent.child)
    ensures r == null ==> forall x | x in kids :: x.next == old(x.next) && x.prev == old(x.prev)
  {
    if parent == null || item == null {
      return null;
    }
    Unlink(parent, item, kids, k);
    return item;
  }

  /** `cJSON_DetachItemFromArray`. */
  method DetachItemFromArray(parent: Item?, which: int, ghost kids: seq<Item>) returns (r: Item?)
    requires parent != null ==> Children(parent, kids)
    modifies Just(parent)`child, (set x | x in kids)`next, (set x | x in kids)`prev
    ensures r == if parent == null || which < 0 then null else At(kids, which)
    ensures parent != null ==> Children(parent, if 0 <= which < |kids| then kids[..which] + kids[which + 1..] else kids)
    ensures r != null ==> Detached(r)
  {
    if which < 0 {
      return null;
    }
    var item := GetArrayItem(parent, which, kids);
    r := DetachItemViaPointer(parent, item, kids, which);
  }

  lemma ReplacedDistinct(kids: seq<Item>, k: nat, x: Item)
    requires Distinct(kids) && k < |kids| && x !in kids
    ensures Distinct(kids[k := x])
  {}

  /** The pointer assignments of a replacement. */
  method Relink(parent: Item, item: Item, replacement: Item, ghost kids: seq<Item>, ghost k: nat)
    requires Children(parent, kids) && k < |kids| && kids[k] == item && replacement !in kids
    modifies parent`child, replacement`next, replacement`prev, (set x | x in kids)`next, (set x | x in kids)`prev
    ensures Children(parent, kids[k := replacement]) && Detached(item)
  {
    LinkedAt(kids, k);
    ReplacedDistinct(kids, k, replacement);
    hide Distinct;
    replacement.next := item.next;
    replacement.prev := item.prev;
    if replacement.next != null {
      replacement.next.prev := replacement;
    }
    if replacement.prev != null {
      replacement.prev.next := replacement;
    }
    if parent.child == item {
      parent.child := replacement;
    }
    item.next := null;
    item.prev := null;
    ghost var all := kids[k := replacement];
    forall i | 0 <= i < |all|
      ensures all[i].next == At(all, i + 1) && all[i].prev == At(all, i - 1)
    {
      if i != k {
        assert all[i] == kids[i] && kids[i] != item && kids[i] != replacement;
        assert kids[i].next == if i + 1 == k then replacement else old(kids[i].next);
        assert kids[i].prev == if i == k + 1 then replacement else old(kids[i].prev);
      }
    }
  }

  /** `cJSON_ReplaceItemViaPointer`, up to the release of the replaced item. */
  method ReplaceItemViaPointer(parent: Item?, item: Item?, replacement: Item?, ghost kids: seq<Item>, ghost k: nat)
    returns (ok: bool)
    requires parent != null && item != null ==> Children(parent, kids) && k < |kids| && kids[k] == item
    requires replacement != null && replacement != item ==> replacement !in kids
    modifies Just(parent)`child, Just(replacement)`next, Just(replacement)`prev
    modifies (set x | x in kids)`next, (set x | x in kids)`prev
    ensures ok <==> parent != null && item != null && replacement != null
    ensures ok ==> Children(parent, kids[k := replacement]) && (replacement != item ==> Detached(item))
    ensures !ok ==> forall x | x in kids :: x.next == old(x.next) && x.prev == old(x.prev)
  {
    if parent == null || replacement == null || item == null {
      return false;
    }
    if replacement == item {
      assert kids[k := replacement] == kids;
      return true;
    }
    Relink(parent, item, replacement, kids, k);
    return true;
  }
}
