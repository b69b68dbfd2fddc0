/** Edits of the child list of an array or object, as operations on the sequence of its items. */
module ChildList {
  import opened Sequences
  import opened Tree
  import opened Blocks
  import opened Lifetime

  // ----- rows of siblings

  ghost function Before(s: seq<Node>, i: int): Node? { if 0 < i <= |s| then s[i - 1] else null }

  ghost function After(s: seq<Node>, i: int): Node? { if -1 <= i < |s| - 1 then s[i + 1] else null }

  /** The items of s are doubly linked in order, with open ends. */
  ghost predicate Row(s: seq<Node>)
    reads s
  {
    NoDuplicates(s) &&
    forall i :: 0 <= i < |s| ==> s[i].prev == Before(s, i) && s[i].next == After(s, i)
  }

  /** The child list of an array is exactly s. */
  ghost predicate Siblings(parent: Node, s: seq<Node>)
    reads parent, s
  {
    parent !in s && parent.child == After(s, -1) && Row(s)
  }

  /** An item that is in no list. */
  ghost predicate Loose(item: Node)
    reads item
  {
    item.next == null && item.prev == null
  }

  /** Negative positions count as the first, positions past the end as the end. */
  function Position(which: int, length: nat): (i: nat)
    ensures i <= length
  {
    if which < 0 then 0 else if which > length then length else which
  }

  // ----- lookups

  /** cJSON_GetArraySize */
  method GetArraySize(parent: Node, ghost s: seq<Node>) returns (n: nat)
    requires Siblings(parent, s)
    ensures n == |s|
  {
    n := 0;
    var c := parent.child;
    while c != null
      invariant n <= |s| && c == After(s, n - 1)
      decreases |s| - n
    {
      n, c := n + 1, c.next;
    }
  }

  /** cJSON_GetArrayItem, and the walk at the head of every positional edit. */
  method GetArrayItem(parent: Node, which: int, ghost s: seq<Node>) returns (c: Node?)
    requires Siblings(parent, s)
    ensures 0 <= which < |s| ==> c == s[which]
    ensures which < 0 && s != [] ==> c == s[0]
    ensures s == [] || which >= |s| ==> c == null
  {
    c := parent.child;
    var left := which;
    ghost var i: nat := 0;
    while c != null && left > 0
      invariant i <= |s| && c == After(s, i - 1)
      invariant left <= 0 ==> i == Position(which, |s|)
      invariant left > 0 ==> i + left == which
      decreases |s| - i
    {
      c, left, i := c.next, left - 1, i + 1;
    }
  }

  // ----- edits

  /** suffix_object behind the last item */
  method SuffixObject(prev: Node, item: Node, ghost s: seq<Node>)
    requires Row(s) && s != [] && prev == s[|s| - 1] && item !in s && Loose(item)
    modifies prev`next, item`prev
    ensures Row(s + [item])
  {
    Apart(s, |s| - 1);
    hide NoDuplicates;
    prev.next := item;
    item.prev := prev;
    RowExtended(s, item);
  }

  lemma RowExtended(s: seq<Node>, x: Node)
    requires NoDuplicates(s) && s != [] && x !in s
    requires x.prev == s[|s| - 1] && x.next == null
    requires forall k :: 0 <= k < |s| ==> s[k].prev == Before(s, k)
    requires forall k :: 0 <= k < |s| ==> s[k].next == if k == |s| - 1 then x else After(s, k)
    ensures Row(s + [x])
  {
  }

  /** cJSON_AddItemToArray */
  method AddItemToArray(parent: Node, item: Node?, ghost s: seq<Node>)
    requires Siblings(parent, s)
    requires item != null ==> item != parent && item !in s && Loose(item)
    modifies parent`child, s`next, (if item == null then {} else {item})`prev
    ensures Siblings(parent, if item == null then s else s + [item])
  {
    if item == null { return; }
    var c := parent.child;
    if c == null {
      parent.child := item;
    } else {
      ghost var i := 0;
      while c != null && c.next != null
        invariant 0 <= i < |s| && c == s[i]
        decreases |s| - i
      {
        c, i := c.next, i + 1;
      }
      SuffixObject(c, item, s);
    }
  }

  /** cJSON_DetachItemFromArray */
  method DetachItemFromArray(parent: Node, which: int, ghost s: seq<Node>) returns (c: Node?)
    requires Siblings(parent, s)
    modifies parent`child, s`next, s`prev
    ensures 0 <= which < |s| ==> c == s[which] && Loose(c) && Siblings(parent, s[..which] + s[which + 1..])
    ensures which < 0 && s != [] ==> c == s[0] && Loose(c) && Siblings(parent, s[1..])
    ensures s == [] || which >= |s| ==> c == null && Siblings(parent, s)
  {
    c := GetArrayItem(parent, which, s);
    if c == null { return; }
    FirstRemoved(s);
    Unlink(parent, c, s, Position(which, |s|));
  }

  lemma FirstRemoved<T>(s: seq<T>)
    requires s != []
    ensures Removed(s, 0) == s[1..]
  {
  }

  /** The neighbours of item i are different items, and no others. */
  lemma Apart(s: seq<Node>, i: nat)
    requires NoDuplicates(s) && i < |s|
    ensures forall k :: 0 <= k < |s| ==>
      (k != i ==> s[k] != s[i]) && (i > 0 && k != i - 1 ==> s[k] != s[i - 1]) &&
      (i + 1 < |s| && k != i + 1 ==> s[k] != s[i + 1])
  {
  }

  /** The assignments of cJSON_DetachItemFromArray. */
  method Unlink(parent: Node, c: Node, ghost s: seq<Node>, ghost i: nat)
    requires Siblings(parent, s) && i < |s| && c == s[i]
    modifies parent`child, s`next, s`prev
    ensures Loose(c) && Siblings(parent, Removed(s, i))
  {
    hide NoDuplicates;
    Apart(s, i);
    RemovedAt(s, i);
    Bypass(c, s, i);
    if c == parent.child { parent.child := c.next; }
    c.prev, c.next := null, null;
    RowRemoved(s, i);
  }

  /** The neighbours of item i are linked to each other. */
  method Bypass(c: Node, ghost s: seq<Node>, ghost i: nat)
    requires Row(s) && i < |s| && c == s[i]
    modifies s`next, s`prev
    ensures c.prev == Before(s, i) && c.next == After(s, i)
    ensures forall k :: 0 <= k < |s| && k != i ==>
              s[k].prev == (if k == i + 1 then Before(s, i) else Before(s, k)) &&
              s[k].next == if k == i - 1 then After(s, i) else After(s, k)
  {
    Apart(s, i);
    hide NoDuplicates;
    if c.prev != null { c.prev.next := c.next; }
    if c.next != null { c.next.prev := c.prev; }
  }

  /** Bypassing item i leaves a row without it. */
  lemma RowRemoved(s: seq<Node>, i: nat)
    requires NoDuplicates(s) && i < |s|
    requires forall k :: 0 <= k < |s| && k != i ==> s[k].prev == if k == i + 1 then Before(s, i) else Before(s, k)
    requires forall k :: 0 <= k < |s| && k != i ==> s[k].next == if k == i - 1 then After(s, i) else After(s, k)
    ensures Row(Removed(s, i))
  {
    var r := Removed(s, i);
    RemovedAt(s, i);
    forall k | 0 <= k < |r| ensures r[k].prev == Before(r, k) && r[k].next == After(r, k) {
      if k < i {
        assert r[k] == s[k];
      } else {
        assert r[k] == s[k + 1];
      }
    }
  }

  /** Linking x in front of item i gives the row with x at i. */
  lemma RowInserted(s: seq<Node>, i: nat, x: Node)
    requires NoDuplicates(s) && i < |s| && x !in s
    requires x.prev == Before(s, i) && x.next == s[i]
    requires forall k :: 0 <= k < |s| ==> s[k].prev == if k == i then x else Before(s, k)
    requires forall k :: 0 <= k < |s| ==> s[k].next == if k == i - 1 then x else After(s, k)
    ensures Row(Inserted(s, i, x))
  {
    var r := Inserted(s, i, x);
    InsertedAt(s, i, x);
    forall k | 0 <= k < |r| ensures r[k].prev == Before(r, k) && r[k].next == After(r, k) {
      if k < i {
        assert r[k] == s[k];
      } else if k > i {
        assert r[k] == s[k - 1];
      }
    }
  }

  lemma InsertedAtEnds<T>(s: seq<T>, x: T)
    ensures Inserted(s, 0, x) == [x] + s && Inserted(s, |s|, x) == s + [x]
  {
  }

  /** cJSON_InsertItemInArray */
  method InsertItemInArray(parent: Node, which: int, newitem: Node, ghost s: seq<Node>)
    requires Siblings(parent, s)
    requires newitem != parent && newitem !in s && (s == [] || which >= |s| ==> Loose(newitem))
    modifies parent`child, s`next, s`prev, newitem`next, newitem`prev
    ensures 0 <= which < |s| ==> Siblings(parent, s[..which] + [newitem] + s[which..])
    ensures which < 0 ==> Siblings(parent, [newitem] + s)
    ensures which >= |s| ==> Siblings(parent, s + [newitem])
  {
    hide Row;
    var c := GetArrayItem(parent, which, s);
    InsertedAtEnds(s, newitem);
    if c == null {
      AddItemToArray(parent, newitem, s);
      return;
    }
    LinkBefore(parent, c, newitem, s, Position(which, |s|));
  }

  /** The assignments of cJSON_InsertItemInArray. */
  method LinkBefore(parent: Node, c: Node, newitem: Node, ghost s: seq<Node>, ghost i: nat)
    requires Siblings(parent, s) && i < |s| && c == s[i]
    requires newitem != parent && newitem !in s
    modifies parent`child, s`next, s`prev, newitem`next, newitem`prev
    ensures Siblings(parent, Inserted(s, i, newitem))
  {
    hide NoDuplicates;
    Apart(s, i);
    InsertedAt(s, i, newitem);
    newitem.next := c;
    newitem.prev := c.prev;
    c.prev := newitem;
    if c == parent.child {
      parent.child := newitem;
    } else {
      newitem.prev.next := newitem;
    }
    RowInserted(s, i, newitem);
  }

  /** Detaching an item and inserting it where it was restores the list. */
  method DetachAndInsert(parent: Node, which: int, ghost s: seq<Node>)
    requires Siblings(parent, s) && 0 <= which < |s|
    modifies parent`child, s`next, s`prev
    ensures Siblings(parent, s)
  {
    hide Row;
    NotInRest(s, which);
    var c := DetachItemFromArray(parent, which, s);
    RemovedAt(s, which);
    InsertUndoesRemove(s, which);
    InsertedAtEnds(Removed(s, which), c);
    InsertItemInArray(parent, which, c, Removed(s, which));
  }

  lemma NotInRest(s: seq<Node>, i: nat)
    requires Row(s) && i < |s|
    ensures s[i] !in Removed(s, i) && forall n :: n in Removed(s, i) ==> n in s
  {
    RemovedAt(s, i);
  }

  /** Linking x in the place of item i. */
  lemma RowReplaced(s: seq<Node>, i: nat, x: Node)
    requires NoDuplicates(s) && i < |s| && x !in s
    requires x.prev == Before(s, i) && x.next == After(s, i)
    requires forall k :: 0 <= k < |s| && k != i ==> s[k].prev == if k == i + 1 then x else Before(s, k)
    requires forall k :: 0 <= k < |s| && k != i ==> s[k].next == if k == i - 1 then x else After(s, k)
    ensures Row(s[i := x])
  {
  }

  /** The item at position i owns `below`, no node of which is in the list or about to enter it. */
  ghost predicate OwnsBelow(c: Node, below: Shape, apart: set<Node>, mem: Memory)
    reads c, Nodes(below), mem
  {
    Nodes(below) !! apart && c in apart && Distinct(below) &&
    (if c.isReference then below == Leaf else Reaches(below, c.child)) &&
    OwnBlocks(c) + Owned(below) <= mem.live
  }

  /** cJSON_ReplaceItemInArray: the old item leaves the list and is released with everything it owns. */
  method ReplaceItemInArray(parent: Node, which: int, newitem: Node, ghost s: seq<Node>, ghost below: Shape,
                            mem: Memory)
    requires Siblings(parent, s)
    requires newitem != parent && newitem !in s
    requires 0 <= which < |s| ==> OwnsBelow(s[which], below, (set n | n in s) + {parent, newitem}, mem)
    requires which < 0 && s != [] ==> OwnsBelow(s[0], below, (set n | n in s) + {parent, newitem}, mem)
    modifies parent`child, s`next, s`prev, newitem`next, newitem`prev, mem
    ensures 0 <= which < |s| ==>
              Siblings(parent, s[which := newitem]) &&
              mem.live == old(mem.live) - old(OwnBlocks(s[which]) + Owned(below))
    ensures which < 0 && s != [] ==>
              Siblings(parent, s[0 := newitem]) &&
              mem.live == old(mem.live) - old(OwnBlocks(s[0]) + Owned(below))
    ensures s == [] || which >= |s| ==> Siblings(parent, s) && mem.live == old(mem.live)
  {
    hide Row, OwnsBelow, OwnBlocks, Owned;
    ShapeAllocated(below);
    var c := GetArrayItem(parent, which, s);
    if c == null { return; }
    assert OwnsBelow(c, below, (set n | n in s) + {parent, newitem}, mem) && Owned(below) == old(Owned(below));
    ReplaceAt(parent, c, newitem, s, Position(which, |s|), below, mem);
  }

  /** Linking the new item, and cJSON_Delete of the old one. */
  method ReplaceAt(parent: Node, c: Node, newitem: Node, ghost s: seq<Node>, ghost i: nat, ghost below: Shape,
                   mem: Memory)
    requires Siblings(parent, s) && i < |s| && c == s[i] && newitem != parent && newitem !in s
    requires OwnsBelow(c, below, (set n | n in s) + {parent, newitem}, mem)
    modifies parent`child, s`next, s`prev, newitem`next, newitem`prev, mem
    ensures Siblings(parent, s[i := newitem])
    ensures mem.live == old(mem.live) - old(OwnBlocks(c) + Owned(below))
  {
    hide Siblings, OwnBlocks, Owned, Reaches, Distinct;
    TakeOut(parent, c, newitem, s, i, below, mem);
    SingleTree(c, below);
    Delete(c, Branch(c, below, Leaf), mem);
    assert Siblings(parent, s[i := newitem]);
  }

  lemma SingleTree(c: Node, below: Shape)
    requires c !in Nodes(below) && Distinct(below) && c.next == null
    requires if c.isReference then below == Leaf else Reaches(below, c.child)
    ensures var t := Branch(c, below, Leaf); Reaches(t, c) && Distinct(t) && Owned(t) == OwnBlocks(c) + Owned(below)
  {
  }

  /** The old item leaves the list with its blocks and its children unchanged. */
  method TakeOut(parent: Node, c: Node, newitem: Node, ghost s: seq<Node>, ghost i: nat, ghost below: Shape,
                 ghost mem: Memory)
    requires Siblings(parent, s) && i < |s| && c == s[i] && newitem != parent && newitem !in s
    requires OwnsBelow(c, below, (set n | n in s) + {parent, newitem}, mem)
    modifies parent`child, s`next, s`prev, newitem`next, newitem`prev
    ensures Siblings(parent, s[i := newitem]) && Loose(c)
    ensures OwnBlocks(c) == old(OwnBlocks(c)) && Owned(below) == old(Owned(below))
    ensures OwnsBelow(c, below, (set n | n in s) + {parent, newitem}, mem)
  {
    hide Row, Owned, Reaches;
    ShapeAllocated(below);
    LinkInstead(parent, c, newitem, s, i);
    assert Owned(below) == old(Owned(below));
    assert !c.isReference ==> Reaches(below, c.child);
  }

  /** The assignments of cJSON_ReplaceItemInArray. */
  method LinkInstead(parent: Node, c: Node, newitem: Node, ghost s: seq<Node>, ghost i: nat)
    requires Siblings(parent, s) && i < |s| && c == s[i]
    requires newitem != parent && newitem !in s
    modifies parent`child, s`next, s`prev, newitem`next, newitem`prev
    ensures Siblings(parent, s[i := newitem]) && Loose(c)
  {
    Apart(s, i);
    Adopt(parent, c, newitem, s, i);
    hide NoDuplicates;
    c.next, c.prev := null, null;
    RowReplaced(s, i, newitem);
  }

  /** The neighbours of item i are linked to the new one. */
  method Adopt(parent: Node, c: Node, newitem: Node, ghost s: seq<Node>, ghost i: nat)
    requires Siblings(parent, s) && i < |s| && c == s[i]
    requires newitem != parent && newitem !in s
    modifies parent`child, s`next, s`prev, newitem`next, newitem`prev
    ensures newitem.prev == Before(s, i) && newitem.next == After(s, i) && parent.child == After(s[i := newitem], -1)
    ensures forall k :: 0 <= k < |s| && k != i ==>
              s[k].prev == (if k == i + 1 then newitem else Before(s, k)) &&
              s[k].next == if k == i - 1 then newitem else After(s, k)
  {
    Apart(s, i);
    hide NoDuplicates;
    newitem.next := c.next;
    newitem.prev := c.prev;
    if newitem.next != null { newitem.next.prev := newitem; }
    if c == parent.child {
      parent.child := newitem;
    } else {
      newitem.prev.next := newitem;
    }
  }

  // ----- rows and shapes

  /** The shape made of the items of s from k on, with below[i] hung below item i. */
  function Assemble(s: seq<Node>, below: seq<Shape>, k: nat): Shape
    requires |below| == |s| && k <= |s|
    decreases |s| - k
  {
    if k == |s| then Leaf else Branch(s[k], below[k], Assemble(s, below, k + 1))
  }

  /** After any edit the list can be printed, duplicated and searched again. */
  lemma {:induction false} RowFollows(s: seq<Node>, below: seq<Shape>, k: nat)
    requires |below| == |s| && k <= |s| && Row(s)
    requires forall i :: 0 <= i < |s| ==> Follows(below[i], s[i].child)
    ensures Follows(Assemble(s, below, k), After(s, k - 1))
    decreases |s| - k
  {
    if k < |s| { RowFollows(s, below, k + 1); }
  }

  /** What hangs below the items is apart from the items, and from what hangs below the others. */
  ghost predicate Spread(s: seq<Node>, below: seq<Shape>) {
    |below| == |s| && NoDuplicates(s) &&
    (forall i :: 0 <= i < |s| ==> Distinct(below[i])) &&
    (forall i, j :: 0 <= i < |s| && 0 <= j < |s| ==> s[i] !in Nodes(below[j])) &&
    forall i, j :: 0 <= i < j < |s| ==> Nodes(below[i]) !! Nodes(below[j])
  }

  lemma {:induction false} AssembleNodes(s: seq<Node>, below: seq<Shape>, k: nat)
    requires |below| == |s| && k <= |s|
    ensures forall n :: n in Nodes(Assemble(s, below, k)) ==>
              exists i :: k <= i < |s| && (n == s[i] || n in Nodes(below[i]))
    decreases |s| - k
  {
    if k < |s| {
      AssembleNodes(s, below, k + 1);
      assert Nodes(Assemble(s, below, k)) == {s[k]} + Nodes(below[k]) + Nodes(Assemble(s, below, k + 1));
    }
  }

  /** After any edit the list can be deleted as well. */
  lemma {:induction false} RowReaches(s: seq<Node>, below: seq<Shape>, k: nat)
    requires Spread(s, below) && k <= |s| && Row(s)
    requires forall i :: 0 <= i < |s| ==> if s[i].isReference then below[i] == Leaf else Reaches(below[i], s[i].child)
    ensures Reaches(Assemble(s, below, k), After(s, k - 1)) && Distinct(Assemble(s, below, k))
    decreases |s| - k
  {
    if k < |s| {
      RowReaches(s, below, k + 1);
      AssembleNodes(s, below, k + 1);
      var later := Assemble(s, below, k + 1);
      assert s[k] !in Nodes(later);
      assert Nodes(below[k]) !! Nodes(later);
    }
  }

  lemma {:induction false} TopsAreNodes(sh: Shape)
    ensures forall n :: n in Tops(sh) ==> n in Nodes(sh)
  {
    if sh.Branch? { TopsAreNodes(sh.next); }
  }

  /** A chain built by the parser or by cJSON_Duplicate is a row. */
  lemma {:induction false} ChainIsRow(sh: Shape, p: Node?, prev: Node?)
    requires Linked(sh, p, prev) && Distinct(sh)
    ensures var s := Tops(sh);
            NoDuplicates(s) && p == After(s, -1) &&
            forall i :: 0 <= i < |s| ==>
              s[i].prev == (if i == 0 then prev else Before(s, i)) && s[i].next == After(s, i)
  {
    if sh.Branch? {
      var t := Tops(sh.next);
      ChainIsRow(sh.next, sh.node.next, sh.node);
      TopsAreNodes(sh.next);
      assert forall i :: 0 < i <= |t| ==> Tops(sh)[i] == t[i - 1];
    }
  }
}
