/** Growing a chain of siblings at its end, as the parser and cJSON_Duplicate do. */
module Chains {
  import opened Tree
  import opened Blocks

  /**
   * The chain from `first` runs through `pre` to the last node `child`, below which hangs
   * `below`; all of it is linked, owned, and no node occurs twice.
   */
  ghost predicate Building(first: Node?, pre: Shape, child: Node, below: Shape)
    reads Nodes(pre), child, Nodes(below)
  {
    Stretch(pre, first, null, child, child.prev) && child.next == null && Linked(below, child.child, null) &&
    Distinct(pre) && Distinct(below) && Nodes(pre) !! Nodes(below) && child !in Nodes(pre) && child !in Nodes(below) &&
    NoReferences(pre) && NoReferences(below) && !child.isReference
  }

  function Built(pre: Shape, child: Node, below: Shape): Shape {
    Join(pre, Branch(child, below, Leaf))
  }

  lemma BuiltChain(first: Node?, pre: Shape, child: Node, below: Shape)
    requires Building(first, pre, child, below)
    ensures Chain(Built(pre, child, below), first)
    ensures Nodes(Built(pre, child, below)) == Nodes(pre) + Nodes(below) + {child}
  {
    var last := Branch(child, below, Leaf);
    assert Linked(last, child, child.prev);
    assert Nodes(last) == {child} + Nodes(below) && Distinct(last);
    JoinLinked(pre, first, null, last, child, child.prev);
    JoinNodes(pre, last);
  }

  lemma BuiltSnap(pre: Shape, child: Node, below: Shape)
    ensures Snap(Built(pre, child, below)) == JoinSnap(Snap(pre), Snapshot(child.Contents(), Snap(below), End))
  {
    var last := Branch(child, below, Leaf);
    SnapJoin(pre, last);
    assert Snap(last) == Snapshot(child.Contents(), Snap(below), End);
  }

  lemma BuiltBlocks(pre: Shape, child: Node, below: Shape)
    ensures Allocated(Built(pre, child, below)) == Allocated(pre) + AllBlocks(child) + Allocated(below)
    ensures OwnNames(Built(pre, child, below)) <==> OwnNames(pre) && !child.stringIsConst && OwnNames(below)
  {
    var last := Branch(child, below, Leaf);
    assert Allocated(last) == AllBlocks(child) + Allocated(below) + Allocated(Leaf);
    assert Nodes(last) == {child} + Nodes(below) + Nodes(Leaf);
    JoinAllocated(pre, last);
    JoinNodes(pre, last);
  }

  lemma BuiltStretch(first: Node?, pre: Shape, child: Node, below: Shape, item: Node)
    requires Stretch(pre, first, null, child, child.prev) && Linked(below, child.child, null)
    requires child.next == item
    ensures Stretch(Built(pre, child, below), first, null, item, child)
  {
    var last := Branch(child, below, Leaf);
    assert Stretch(last, child, child.prev, item, child);
    JoinStretch(pre, first, null, last, child, child.prev, item, child);
  }

  /** `child->next=item; item->prev=child` for an item that is not linked yet. */
  method LinkAfter(ghost first: Node?, ghost pre: Shape, child: Node, ghost below: Shape, item: Node, ghost hung: Shape)
    requires Building(first, pre, child, below)
    requires item !in Nodes(Built(pre, child, below)) && Nodes(hung) !! Nodes(Built(pre, child, below))
    requires item.next == null && item.prev == null && !item.isReference && item !in Nodes(hung) &&
             Chain(hung, item.child)
    modifies child`next, item`prev
    ensures child.next == item && item.prev == child
    ensures Building(first, Built(pre, child, below), item, hung)
    ensures Snap(Built(pre, child, below)) == old(Snap(Built(pre, child, below)))
    ensures Snap(hung) == old(Snap(hung)) && item.Contents() == old(item.Contents())
  {
    BuiltSnap(pre, child, below);
    BuiltChain(first, pre, child, below);
    ghost var a, b := Snap(pre), Snap(below);
    child.next := item;
    item.prev := child;
    assert Stretch(pre, first, null, child, child.prev) && Linked(below, child.child, null);
    assert Snap(pre) == a && Snap(below) == b;
    assert Linked(hung, item.child, null);
    BuiltSnap(pre, child, below);
    BuiltStretch(first, pre, child, below, item);
    assert NoReferences(Built(pre, child, below));
  }
}
