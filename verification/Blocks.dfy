/** The memory blocks behind cJSON items, and the allocator's account of them. */
module Blocks {
  import opened Tree

  /** The memory blocks of an item: the node itself, its valuestring and its name. */
  datatype Block = NodeBlock(node: Node) | TextBlock(node: Node) | NameBlock(node: Node)

  /** The allocator: the blocks it has given out and not got back. */
  class Memory {
    ghost var live: set<Block>

    constructor ()
      ensures live == {}
    {
      live := {};
    }

    /** cJSON_malloc */
    ghost method Alloc(b: Block)
      requires b !in live
      modifies this
      ensures live == old(live) + {b}
    {
      live := live + {b};
    }

    /** cJSON_free: only what has been allocated, and only once. */
    ghost method Free(b: Block)
      requires b in live
      modifies this
      ensures live == old(live) - {b}
    {
      live := live - {b};
    }

    /** A string moves from the valuestring of an item to its name. */
    ghost method Move(n: Node)
      requires TextBlock(n) in live && NameBlock(n) !in live
      modifies this
      ensures live == old(live) - {TextBlock(n)} + {NameBlock(n)}
    {
      live := live - {TextBlock(n)} + {NameBlock(n)};
    }

    /** A block of a node that does not exist yet has not been given out. */
    lemma BlocksExist()
      ensures forall b :: b in live ==> allocated(b.node)
    {
    }
  }

  /** cJSON_New_Item */
  method NewItem(mem: Memory) returns (n: Node)
    modifies mem
    ensures fresh(n) && n.next == null && n.prev == null && n.child == null && n.Contents() == BLANK
    ensures mem.live == old(mem.live) + {NodeBlock(n)} && OwnFree(n, old(mem.live))
  {
    mem.BlocksExist();
    n := new Node();
    assert forall b :: b in mem.live ==> b.node != n;
    mem.Alloc(NodeBlock(n));
  }

  /** No block of this item is among the given ones. */
  ghost predicate OwnFree(n: Node, live: set<Block>) {
    NodeBlock(n) !in live && TextBlock(n) !in live && NameBlock(n) !in live
  }

  // ----- the blocks of items

  /** The strings allocated for an item. */
  ghost function Strings(n: Node): set<Block>
    reads n`valuestring, n`name
  {
    (if n.valuestring.Some? then {TextBlock(n)} else {}) + (if n.name.Some? then {NameBlock(n)} else {})
  }

  ghost function AllBlocks(n: Node): set<Block>
    reads n`valuestring, n`name
  {
    {NodeBlock(n)} + Strings(n)
  }

  /** The blocks allocated for the nodes of a shape. */
  ghost function Allocated(sh: Shape): set<Block>
    reads Nodes(sh)`valuestring, Nodes(sh)`name
  {
    match sh
    case Leaf => {}
    case Branch(n, c, x) => AllBlocks(n) + Allocated(c) + Allocated(x)
  }

  /** No name is marked as constant. */
  ghost predicate OwnNames(sh: Shape)
    reads Nodes(sh)`stringIsConst
  {
    forall n :: n in Nodes(sh) ==> !n.stringIsConst
  }

  lemma {:induction false} JoinAllocated(a: Shape, b: Shape)
    ensures Allocated(Join(a, b)) == Allocated(a) + Allocated(b)
  {
    hide AllBlocks;
    if a.Branch? { JoinAllocated(a.next, b); }
  }

  lemma {:induction false} AllocatedNodes(sh: Shape)
    ensures forall b :: b in Allocated(sh) ==> b.node in Nodes(sh)
  {
    if sh.Branch? {
      AllocatedNodes(sh.child);
      AllocatedNodes(sh.next);
    }
  }

  /** The blocks of a shape with these contents. */
  ghost function BlocksOf(sh: Shape, s: Snapshot): set<Block> {
    if sh.Leaf? || s.End? then {}
    else
      {NodeBlock(sh.node)} + (if s.fields.valuestring.Some? then {TextBlock(sh.node)} else {}) +
      (if s.fields.name.Some? then {NameBlock(sh.node)} else {}) + BlocksOf(sh.child, s.child) +
      BlocksOf(sh.next, s.next)
  }

  /** Equal contents have equal blocks. */
  lemma {:induction false} SnapBlocks(sh: Shape)
    ensures Allocated(sh) == BlocksOf(sh, Snap(sh))
  {
    if sh.Branch? {
      SnapBlocks(sh.child);
      SnapBlocks(sh.next);
      assert {NodeBlock(sh.node)} + Strings(sh.node) == {NodeBlock(sh.node)} +
        (if sh.node.valuestring.Some? then {TextBlock(sh.node)} else {}) +
        (if sh.node.name.Some? then {NameBlock(sh.node)} else {});
    }
  }

  /** Blocks of nodes that did not exist are none of those given out. */
  lemma FreshBlocks(live: set<Block>, sh: Shape)
    requires forall b :: b in live ==> b.node !in Nodes(sh)
    ensures live !! Allocated(sh)
  {
    AllocatedNodes(sh);
  }
}
