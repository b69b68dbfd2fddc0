/** cJSON_Delete, cJSON_Duplicate and cJSON_ParseWithOpts: who releases which memory. */
module Lifetime {
  import opened Bytes
  import opened Parsing
  import opened Tree
  import opened Blocks
  import opened Parser
  import opened Chains
  import opened TreeParser

  // ----- ownership

  /** The blocks cJSON_Delete regards as owned by an item alone. */
  ghost function OwnBlocks(n: Node): set<Block>
    reads n`isReference, n`stringIsConst, n`valuestring, n`name
  {
    {NodeBlock(n)} + (if !n.isReference && n.valuestring.Some? then {TextBlock(n)} else {}) +
    (if !n.stringIsConst && n.name.Some? then {NameBlock(n)} else {})
  }

  ghost function Owned(sh: Shape): set<Block>
    reads Nodes(sh)`isReference, Nodes(sh)`stringIsConst, Nodes(sh)`valuestring, Nodes(sh)`name
  {
    match sh
    case Leaf => {}
    case Branch(n, c, x) => OwnBlocks(n) + Owned(c) + Owned(x)
  }

  /** The nodes cJSON_Delete reaches: it does not look below a reference. */
  ghost predicate Reaches(sh: Shape, p: Node?)
    reads Nodes(sh)
  {
    match sh
    case Leaf => p == null
    case Branch(n, c, x) =>
      p == n && (if n.isReference then c == Leaf else Reaches(c, n.child)) && Reaches(x, n.next)
  }

  lemma {:induction false} OwnedNodes(sh: Shape)
    ensures forall b :: b in Owned(sh) ==> b.node in Nodes(sh)
  {
    if sh.Branch? {
      OwnedNodes(sh.child);
      OwnedNodes(sh.next);
    }
  }

  lemma {:induction false} ChainReaches(sh: Shape, p: Node?, prev: Node?)
    requires Linked(sh, p, prev) && NoReferences(sh)
    ensures Reaches(sh, p)
  {
    match sh
    case Leaf =>
    case Branch(n, c, x) =>
      ChainReaches(c, n.child, null);
      ChainReaches(x, n.next, n);
  }

  /** A chain, read as its first item, the items below that, and the items behind it. */
  lemma OwnedStep(sh: Shape, c: Node)
    requires Reaches(sh, c) && Distinct(sh)
    ensures sh.Branch? && sh.node == c && c !in Nodes(sh.child) && Distinct(sh.child) && Distinct(sh.next)
    ensures Reaches(sh.next, c.next) && (if c.isReference then sh.child == Leaf else Reaches(sh.child, c.child))
    ensures Owned(sh) == OwnBlocks(c) + Owned(sh.child) + Owned(sh.next)
    ensures OwnBlocks(c) !! Owned(sh.child) && OwnBlocks(c) + Owned(sh.child) !! Owned(sh.next)
    ensures NodeBlock(c) in OwnBlocks(c)
  {
    hide OwnBlocks;
    OwnedApart(c, sh.child, sh.next);
  }

  lemma OwnedApart(c: Node, below: Shape, behind: Shape)
    requires c !in Nodes(below) && c !in Nodes(behind) && Nodes(below) !! Nodes(behind)
    ensures OwnBlocks(c) !! Owned(below) && OwnBlocks(c) + Owned(below) !! Owned(behind) && NodeBlock(c) in OwnBlocks(c)
  {
    hide Owned;
    OwnedNodes(below);
    OwnedNodes(behind);
    Apart(OwnBlocks(c), Owned(below), Owned(behind), c, Nodes(below), Nodes(behind));
  }

  lemma Apart(a: set<Block>, b: set<Block>, d: set<Block>, c: Node, p: set<Node>, q: set<Node>)
    requires c !in p && c !in q && p !! q
    requires forall x :: x in a ==> x.node == c
    requires forall x :: x in b ==> x.node in p
    requires forall x :: x in d ==> x.node in q
    ensures a !! b && a + b !! d
  {
  }

  lemma OwnedEnd(sh: Shape)
    requires Reaches(sh, null)
    ensures sh == Leaf && Owned(sh) == {}
  {
  }

  /**
   * cJSON_Delete: every owned block of every reached node is released, each of them once, and
   * nothing else; no field is read of a node that has been released.
   */
  method Delete(first: Node?, ghost sh: Shape, mem: Memory)
    requires Reaches(sh, first) && Distinct(sh) && Owned(sh) <= mem.live
    modifies mem
    ensures mem.live == old(mem.live) - old(Owned(sh))
    decreases sh, 0
  {
    hide OwnBlocks, Owned, Reaches, Distinct;
    ShapeAllocated(sh);
    var c := first;
    ghost var rest, todo := sh, Owned(sh);
    while c != null
      invariant Reaches(rest, c) && Distinct(rest) && Owned(rest) == todo && (rest == sh || rest < sh)
      invariant todo <= mem.live && todo <= old(Owned(sh)) && mem.live - todo == old(mem.live) - old(Owned(sh))
      decreases rest
    {
      OwnedStep(rest, c);
      ShapeAllocated(rest.next);
      assert NodeBlock(c) in mem.live;
      ghost var later := Owned(rest.next);
      var next := c.next;
      ReleaseItem(c, rest.child, mem);
      assert Reaches(rest.next, next) && Owned(rest.next) == later;
      c, rest, todo := next, rest.next, later;
    }
    OwnedEnd(rest);
  }

  /** One turn: the children, the two strings, and last the node itself. */
  method ReleaseItem(c: Node, ghost ch: Shape, mem: Memory)
    requires if c.isReference then ch == Leaf else Reaches(ch, c.child)
    requires Distinct(ch) && c !in Nodes(ch)
    requires OwnBlocks(c) <= mem.live && Owned(ch) <= mem.live && OwnBlocks(c) !! Owned(ch)
    modifies mem
    ensures mem.live == old(mem.live) - (old(OwnBlocks(c)) + old(Owned(ch)))
    decreases ch, 1
  {
    hide Owned, Reaches, Distinct;
    ghost var below := Owned(ch);
    if !c.isReference && c.child != null {
      Delete(c.child, ch, mem);
    } else {
      if c.isReference { EmptyOwned(); } else { OwnedEnd(ch); }
    }
    assert mem.live == old(mem.live) - below;
    if !c.isReference && c.valuestring.Some? { mem.Free(TextBlock(c)); }
    if !c.stringIsConst && c.name.Some? { mem.Free(NameBlock(c)); }
    mem.Free(NodeBlock(c));
  }

  lemma EmptyOwned()
    ensures Owned(Leaf) == {}
  {
  }

  // ----- duplication

  /** A snapshot with every reference flag cleared. */
  function Unreferenced(s: Snapshot): Snapshot {
    match s
    case End => End
    case Snapshot(f, c, x) => Snapshot(f.(isReference := false), Unreferenced(c), Unreferenced(x))
  }

  /** The flag carries no meaning for the value. */
  lemma {:induction false} UnreferencedValue(f: Fields, c: Snapshot)
    ensures ValueOf(f.(isReference := false), Unreferenced(c)) == ValueOf(f, c)
    decreases c, 1
  {
    UnreferencedItems(c);
  }

  lemma {:induction false} UnreferencedItems(s: Snapshot)
    ensures ItemsOf(Unreferenced(s)) == ItemsOf(s)
    decreases s, 0
  {
    if s.Snapshot? {
      UnreferencedValue(s.fields, s.child);
      UnreferencedItems(s.next);
    }
  }

  lemma {:induction false} UnreferencedJoin(a: Snapshot, b: Snapshot)
    ensures Unreferenced(JoinSnap(a, b)) == JoinSnap(Unreferenced(a), Unreferenced(b))
  {
    if a.Snapshot? { UnreferencedJoin(a.next, b); }
  }

  /**
   * cJSON_Duplicate: a fresh tree equal to the source but for cleared reference flags, linked
   * in both directions, owning all its nodes and linked to nothing outside. The source may
   * itself borrow children from other trees; it is only read.
   */
  method Duplicate(item: Node, ghost ch: Shape, recurse: bool, mem: Memory) returns (newitem: Node, ghost copy: Shape)
    requires Follows(ch, item.child)
    modifies mem
    ensures fresh(newitem) && fresh(Nodes(copy)) && newitem !in Nodes(copy)
    ensures newitem.next == null && newitem.prev == null && Chain(copy, newitem.child)
    ensures newitem.Contents() == item.Contents().(isReference := false)
    ensures Snap(copy) == if recurse then Unreferenced(Snap(ch)) else End
    ensures mem.live == old(mem.live) + AllBlocks(newitem) + Allocated(copy)
    decreases ch, 2
  {
    hide Unreferenced, Chain, Allocated, AllBlocks;
    ShapeAllocated(ch);
    NothingBelow();
    ghost var source := Snap(ch);
    newitem := CopyFields(item, mem);
    copy := Leaf;
    assert Follows(ch, item.child) && Snap(ch) == source;
    if recurse && item.child != null {
      ghost var own := AllBlocks(newitem);
      copy := DuplicateChildren(newitem, item, ch, mem);
      assert Snap(ch) == source && AllBlocks(newitem) == own;
    }
  }

  /** `Copy over all vars` */
  method CopyFields(item: Node, mem: Memory) returns (newitem: Node)
    modifies mem
    ensures fresh(newitem) && newitem.next == null && newitem.prev == null && newitem.child == null
    ensures newitem.Contents() == item.Contents().(isReference := false)
    ensures mem.live == old(mem.live) + AllBlocks(newitem)
  {
    newitem := NewItem(mem);
    newitem.kind, newitem.isReference, newitem.stringIsConst := item.kind, false, item.stringIsConst;
    newitem.valueint, newitem.valuedouble := item.valueint, item.valuedouble;
    if item.valuestring.Some? {
      newitem.valuestring := item.valuestring;
      mem.Alloc(TextBlock(newitem));
    }
    if item.name.Some? {
      newitem.name := item.name;
      mem.Alloc(NameBlock(newitem));
    }
  }

  lemma NothingBelow()
    ensures Chain(Leaf, null) && Unreferenced(End) == End && Allocated(Leaf) == {} && Nodes(Leaf) == {}
  {
  }

  /** The loop over the children of the source; its first turn hangs the first copy below the new item. */
  method DuplicateChildren(newitem: Node, item: Node, ghost ch: Shape, mem: Memory) returns (ghost copy: Shape)
    requires Follows(ch, item.child) && newitem.child == null && item.child != null && newitem != item &&
             newitem !in Nodes(ch)
    modifies newitem`child, mem
    ensures Chain(copy, newitem.child) && fresh(Nodes(copy))
    ensures Snap(copy) == Unreferenced(old(Snap(ch))) && mem.live == old(mem.live) + Allocated(copy)
    decreases ch, 1
  {
    hide Unreferenced, Built, Building, Chain, JoinSnap, Allocated, AllBlocks, Follows, Snap, Nodes;
    ShapeAllocated(ch);
    FollowsStep(ch, item.child);
    ghost var source := Snap(ch);
    var nptr; ghost var below;
    nptr, below := DuplicateFirst(newitem, item.child, ch, mem);
    assert Follows(ch, item.child) && Snap(ch) == source;
    FollowsStep(ch, item.child);
    var cptr := item.child.next;
    ghost var pre, done := Leaf, Snapshot(source.fields, source.child, End);
    ghost var rest, todo := ch.next, source.next;
    JoinOne(source);
    NothingBelow();
    ghost var given := Nodes(ch);
    while cptr != null
      invariant Follows(rest, cptr) && Snap(rest) == todo && rest < ch && Nodes(rest) <= given
      invariant Building(newitem.child, pre, nptr, below)
      invariant fresh(Nodes(pre)) && fresh(nptr) && fresh(Nodes(below)) && nptr !in given
      invariant JoinSnap(done, todo) == source && Snap(Built(pre, nptr, below)) == Unreferenced(done)
      invariant mem.live == old(mem.live) + Allocated(Built(pre, nptr, below))
      decreases rest
    {
      ShapeAllocated(rest);
      FollowsStep(rest, cptr);
      ghost var f := Snapshot(todo.fields, todo.child, End);
      JoinNext(done, todo);
      UnreferencedJoin(done, f);
      ghost var longer := Built(pre, nptr, below);
      nptr, below := DuplicateNext(newitem.child, pre, nptr, below, cptr, rest, f, mem, old(mem.live));
      pre, done := longer, JoinSnap(done, f);
      assert Follows(rest, cptr) && Snap(rest) == todo;
      FollowsStep(rest, cptr);
      cptr, rest, todo := cptr.next, rest.next, todo.next;
    }
    JoinEnd(done);
    FollowsEnd(rest);
    copy := Built(pre, nptr, below);
    BuiltChain(newitem.child, pre, nptr, below);
  }

  lemma {:induction false} JoinNext(done: Snapshot, todo: Snapshot)
    requires todo.Snapshot?
    ensures JoinSnap(JoinSnap(done, Snapshot(todo.fields, todo.child, End)), todo.next) == JoinSnap(done, todo)
  {
    if done.Snapshot? {
      JoinNext(done.next, todo);
    } else {
      assert JoinSnap(End, todo.next) == todo.next;
    }
  }

  lemma JoinOne(s: Snapshot)
    requires s.Snapshot?
    ensures JoinSnap(Snapshot(s.fields, s.child, End), s.next) == s
  {
    assert JoinSnap(End, s.next) == s.next;
  }

  lemma {:induction false} JoinEnd(done: Snapshot)
    ensures JoinSnap(done, End) == done
  {
    if done.Snapshot? { JoinEnd(done.next); }
  }

  method DuplicateFirst(newitem: Node, cptr: Node, ghost rest: Shape, mem: Memory)
    returns (nptr: Node, ghost below: Shape)
    requires Follows(rest, cptr) && newitem !in Nodes(rest)
    modifies newitem`child, mem
    ensures newitem.child == nptr && fresh(nptr) && fresh(Nodes(below)) && Building(nptr, Leaf, nptr, below)
    ensures Snap(Built(Leaf, nptr, below)) == Unreferenced(old(Snapshot(cptr.Contents(), Snap(rest.child), End)))
    ensures mem.live == old(mem.live) + Allocated(Built(Leaf, nptr, below))
    decreases rest, 0
  {
    hide Allocated, AllBlocks, BlocksOf;
    ShapeAllocated(rest);
    UnreferencedOne(cptr.Contents(), Snap(rest.child));
    nptr, below := Duplicate(cptr, rest.child, true, mem);
    SnapBlocks(below);
    OwnIs(nptr);
    ghost var hung := Snap(below);
    newitem.child := nptr;
    assert Snap(below) == hung;
    SnapBlocks(below);
    OwnIs(nptr);
    BuiltSnap(Leaf, nptr, below);
    BuiltBlocks(Leaf, nptr, below);
    NothingBelow();
  }

  lemma UnreferencedOne(f: Fields, c: Snapshot)
    ensures Unreferenced(Snapshot(f, c, End)) == Snapshot(f.(isReference := false), Unreferenced(c), End)
    ensures forall x :: JoinSnap(End, x) == x
  {
    assert Unreferenced(End) == End;
  }

  /** A further turn: the copy is cross-linked behind the last one. */
  method DuplicateNext(ghost first: Node?, ghost pre: Shape, nptr: Node, ghost below: Shape, cptr: Node,
                       ghost rest: Shape, ghost f: Snapshot, mem: Memory, ghost before: set<Block>)
    returns (newchild: Node, ghost hung: Shape)
    requires Follows(rest, cptr) && Building(first, pre, nptr, below) && nptr !in Nodes(rest)
    requires f == Snapshot(cptr.Contents(), Snap(rest.child), End)
    requires mem.live == before + Allocated(Built(pre, nptr, below))
    modifies nptr`next, mem
    ensures fresh(newchild) && fresh(Nodes(hung)) && Building(first, Built(pre, nptr, below), newchild, hung)
    ensures Nodes(Built(pre, nptr, below)) == Nodes(pre) + Nodes(below) + {nptr}
    ensures Snap(Built(Built(pre, nptr, below), newchild, hung))
         == JoinSnap(old(Snap(Built(pre, nptr, below))), Unreferenced(f))
    ensures mem.live == before + Allocated(Built(Built(pre, nptr, below), newchild, hung))
    decreases rest, 0
  {
    hide Built, Building, Chain, JoinSnap, Allocated, AllBlocks, BlocksOf;
    ShapeAllocated(rest);
    UnreferencedOne(cptr.Contents(), Snap(rest.child));
    ghost var whole := Built(pre, nptr, below);
    ShapeAllocated(pre);
    ShapeAllocated(below);
    ShapeAllocated(whole);
    BuiltChain(first, pre, nptr, below);
    ghost var done := Snap(whole);
    SnapBlocks(whole);
    newchild, hung := Duplicate(cptr, rest.child, true, mem);
    assert Building(first, pre, nptr, below) && Snap(whole) == done;
    SnapBlocks(whole);
    LinkCopy(first, pre, nptr, below, newchild, hung);
  }

  /** The copy takes its place at the end of the chain, with its contents and blocks as they were. */
  method LinkCopy(ghost first: Node?, ghost pre: Shape, nptr: Node, ghost below: Shape, newchild: Node,
                  ghost hung: Shape)
    requires Building(first, pre, nptr, below)
    requires newchild !in Nodes(Built(pre, nptr, below)) && Nodes(hung) !! Nodes(Built(pre, nptr, below))
    requires newchild.next == null && newchild.prev == null && !newchild.isReference
    requires newchild !in Nodes(hung) && Chain(hung, newchild.child)
    modifies nptr`next, newchild`prev
    ensures Building(first, Built(pre, nptr, below), newchild, hung)
    ensures Snap(Built(Built(pre, nptr, below), newchild, hung))
         == JoinSnap(old(Snap(Built(pre, nptr, below))), old(Snapshot(newchild.Contents(), Snap(hung), End)))
    ensures Allocated(Built(Built(pre, nptr, below), newchild, hung))
         == old(Allocated(Built(pre, nptr, below)) + AllBlocks(newchild) + Allocated(hung))
  {
    hide Built, Building, Chain, JoinSnap, Allocated, AllBlocks, BlocksOf;
    ghost var whole := Built(pre, nptr, below);
    SnapBlocks(whole);
    SnapBlocks(hung);
    OwnIs(newchild);
    LinkAfter(first, pre, nptr, below, newchild, hung);
    SnapBlocks(whole);
    SnapBlocks(hung);
    OwnIs(newchild);
    BuiltSnap(whole, newchild, hung);
    BuiltBlocks(whole, newchild, hung);
  }

  lemma OwnIs(n: Node)
    ensures AllBlocks(n) == BlocksOf(Branch(n, Leaf, Leaf), Snapshot(n.Contents(), End, End))
  {
    assert BlocksOf(Leaf, End) == {};
  }

  // ----- deleting a copy

  /** No item holds its name with the StringIsConst flag set. */
  predicate NoConstNames(s: Snapshot) {
    match s
    case End => true
    case Snapshot(f, c, x) => (f.stringIsConst ==> f.name.None?) && NoConstNames(c) && NoConstNames(x)
  }

  /** Without references, the blocks left over by cJSON_Delete are the names marked as constant. */
  lemma {:induction false} OwnedOfAllocated(sh: Shape)
    requires NoReferences(sh)
    ensures forall b :: b in Owned(sh) <==> b in Allocated(sh) && (b.NameBlock? ==> !b.node.stringIsConst)
  {
    if sh.Branch? {
      OwnedOfAllocated(sh.child);
      OwnedOfAllocated(sh.next);
    }
  }

  lemma {:induction false} ConstNameBlocks(sh: Shape)
    ensures NoConstNames(Snap(sh)) <==> forall b :: b in Allocated(sh) && b.NameBlock? ==> !b.node.stringIsConst
  {
    if sh.Branch? {
      var n := sh.node;
      ConstNameBlocks(sh.child);
      ConstNameBlocks(sh.next);
      assert forall b :: b in Allocated(sh) && b.NameBlock? <==>
        (b == NameBlock(n) && n.name.Some?) || (b in Allocated(sh.child) && b.NameBlock?) ||
        (b in Allocated(sh.next) && b.NameBlock?);
    }
  }

  lemma {:induction false} UnreferencedNames(s: Snapshot)
    ensures NoConstNames(Unreferenced(s)) == NoConstNames(s)
  {
    if s.Snapshot? {
      UnreferencedNames(s.child);
      UnreferencedNames(s.next);
    }
  }

  /**
   * Deleting what cJSON_Duplicate returned is always possible, and it gives back every block of
   * the copy exactly when no source item has a constant name: the flag is copied with a name
   * that was duplicated, and then keeps that duplicate from being released.
   */
  lemma CopyIsReleased(item: Node, ch: Shape, newitem: Node, copy: Shape, before: set<Block>, live: set<Block>)
    requires newitem !in Nodes(copy) && newitem.next == null && Chain(copy, newitem.child)
    requires newitem.Contents() == item.Contents().(isReference := false) && Snap(copy) == Unreferenced(Snap(ch))
    requires live == before + AllBlocks(newitem) + Allocated(copy) && before !! AllBlocks(newitem) + Allocated(copy)
    ensures var tree := Branch(newitem, copy, Leaf);
            Reaches(tree, newitem) && Distinct(tree) && Owned(tree) <= live &&
            (live - Owned(tree) == before <==> NoConstNames(Snapshot(item.Contents(), Snap(ch), End)))
  {
    var tree := Branch(newitem, copy, Leaf);
    ChainReaches(copy, newitem.child, null);
    AllReleased(tree);
    UnreferencedNames(Snap(ch));
    hide Owned, Allocated, AllBlocks;
    assert Allocated(tree) == AllBlocks(newitem) + Allocated(copy) by { OneTree(newitem, copy); }
  }

  lemma OneTree(n: Node, below: Shape)
    ensures Allocated(Branch(n, below, Leaf)) == AllBlocks(n) + Allocated(below)
  {
    assert Allocated(Leaf) == {};
  }

  /** The least example: a copy of one item with a constant name, deleted again, leaves the copied name behind. */
  method ConstNameLeak(mem: Memory) returns (copied: Node)
    modifies mem
    ensures mem.live == old(mem.live) + {NameBlock(copied)} && NameBlock(copied) !in old(mem.live)
  {
    mem.BlocksExist();
    ghost var before := mem.live;
    var item := new Node();
    item.name, item.stringIsConst := Some([0x61]), true;
    ghost var below;
    copied, below := Duplicate(item, Leaf, true, mem);
    assert Snap(Leaf) == End && Unreferenced(End) == End;
    assert below == Leaf;
    ghost var tree := Branch(copied, Leaf, Leaf);
    assert Owned(tree) == {NodeBlock(copied)} && copied.child == null;
    Delete(copied, tree, mem);
  }

  /** Of a tree without references. */
  lemma AllReleased(sh: Shape)
    requires NoReferences(sh)
    ensures Owned(sh) <= Allocated(sh) && (Owned(sh) == Allocated(sh) <==> NoConstNames(Snap(sh)))
  {
    OwnedOfAllocated(sh);
    ConstNameBlocks(sh);
    SameBlocks(Owned(sh), Allocated(sh), NoConstNames(Snap(sh)));
  }

  lemma SameBlocks(owned: set<Block>, all: set<Block>, none: bool)
    requires forall b :: b in owned <==> b in all && (b.NameBlock? ==> !b.node.stringIsConst)
    requires none <==> forall b :: b in all && b.NameBlock? ==> !b.node.stringIsConst
    ensures owned <= all && (owned == all <==> none)
  {
  }

  // ----- parsing a whole text

  /**
   * cJSON_ParseWithOpts. It accepts exactly what ParseText accepts, or without required null
   * termination what ParseValue accepts; `tree` is what it built, and all that is still
   * allocated. On any rejection nothing is.
   */
  method ParseWithOpts(text: array<byte>, ghost s: seq<byte>, requireNullTerminated: bool, mem: Memory)
    returns (c: Node?, end: nat, ghost tree: Shape)
    requires Unread(text, s, 0) && !ParseValue(Skip(s)).Malformed?
    modifies mem
    ensures c != null <==> (if requireNullTerminated then ParseText(s) else ParseValue(Skip(s))).Parsed?
    ensures c != null ==> tree.Branch? && fresh(Nodes(tree)) && Chain(tree, c) && c == tree.node && c.next == null
    ensures c != null ==> ValueOf(c.Contents(), Snap(tree.child)) == ParseValue(Skip(s)).value
    ensures c != null ==> Held(c.Contents(), Snap(tree.child))
    ensures c != null ==> end <= |s| && s[end..] == if requireNullTerminated then [] else ParseValue(Skip(s)).rest
    ensures mem.live == old(mem.live) + if c == null then {} else Allocated(tree)
  {
    hide Held, ParseValue, ValueOf, Chain, Allocated, OwnNames, Skip;
    var ok;
    ok, c, end, tree := ParseRoot(text, s, mem);
    ShapeAllocated(tree);
    if ok && requireNullTerminated {
      ghost var v, k, below := ValueOf(c.Contents(), Snap(tree.child)), Allocated(tree), Snap(tree.child);
      end := SkipAt(text, end, s);
      assert Chain(tree, c) && Allocated(tree) == k && v == ValueOf(c.Contents(), Snap(tree.child)) && OwnNames(tree);
      assert Snap(tree.child) == below;
      Rest(s, end);
      ok := text[end] == 0;
    }
    if !ok {
      ReleaseTree(c, tree, mem);
      c := null;
    }
  }

  /** The root item, filled by parse_value from the first visible byte on. */
  method ParseRoot(text: array<byte>, ghost s: seq<byte>, mem: Memory)
    returns (ok: bool, root: Node, end: nat, ghost tree: Shape)
    requires Unread(text, s, 0) && !ParseValue(Skip(s)).Malformed?
    modifies mem
    ensures tree.Branch? && tree.node == root && fresh(Nodes(tree)) && Chain(tree, root) && root.next == null
    ensures OwnNames(tree) && mem.live == old(mem.live) + Allocated(tree) && old(mem.live) !! Allocated(tree)
    ensures var p := ParseValue(Skip(s));
            ok == p.Parsed? &&
            (ok ==> end <= |s| && s[end..] == p.rest && ValueOf(root.Contents(), Snap(tree.child)) == p.value)
    ensures ok ==> Held(root.Contents(), Snap(tree.child))
  {
    hide Held, ParseValue, ValueOf, Skip, Chain, OwnNames, Allocated, AllBlocks;
    assert s[0..] == s;
    mem.BlocksExist();
    ghost var before := mem.live;
    root := NewItem(mem);
    var value := SkipAt(text, 0, s);
    ghost var ch;
    ok, end, ch := ParseValueItem(root, text, value, s, mem);
    tree := Branch(root, ch, Leaf);
    RootChain(root, ch);
    OneTree(root, ch);
    RootBlocks(root);
    assert forall b :: b in before ==> b.node !in Nodes(tree);
    FreshBlocks(before, tree);
  }

  lemma RootChain(root: Node, ch: Shape)
    requires Chain(ch, root.child) && root !in Nodes(ch) && root.next == null && root.prev == null && !root.isReference
    ensures Chain(Branch(root, ch, Leaf), root) && Nodes(Branch(root, ch, Leaf)) == {root} + Nodes(ch)
    ensures OwnNames(ch) && !root.stringIsConst ==> OwnNames(Branch(root, ch, Leaf))
  {
    assert Nodes(Branch(root, ch, Leaf)) == {root} + Nodes(ch);
  }

  lemma RootBlocks(root: Node)
    ensures root.name == None ==> AllBlocks(root) == {NodeBlock(root)} + TextOrNone(root)
  {
  }

  method ReleaseTree(root: Node, ghost tree: Shape, mem: Memory)
    requires Chain(tree, root) && OwnNames(tree) && Allocated(tree) <= mem.live
    modifies mem
    ensures mem.live == old(mem.live) - old(Allocated(tree))
  {
    ShapeAllocated(tree);
    ChainReaches(tree, root, null);
    OwnedIsAllocated(tree);
    Delete(root, tree, mem);
  }

  lemma OwnedIsAllocated(sh: Shape)
    requires NoReferences(sh) && OwnNames(sh)
    ensures Owned(sh) == Allocated(sh)
  {
    OwnedOfAllocated(sh);
    AllocatedNodes(sh);
    assert forall b :: b in Allocated(sh) ==> b.node in Nodes(sh) && !b.node.stringIsConst;
    assert forall b :: b in Owned(sh) <==> b in Allocated(sh);
  }
}
