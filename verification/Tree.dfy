/**
 * cJSON items on the heap. A cJSON node has a child pointer and a next pointer, so a chain of
 * siblings with all that hangs below it is a binary tree of nodes; Shape names those nodes.
 */
module Tree {
  import opened Bytes
  import opened Json

  datatype Kind = KFalse | KTrue | KNull | KNumber | KString | KArray | KObject

  class Node {
    var next: Node?
    var prev: Node?
    var child: Node?
    var kind: Kind
    var isReference: bool
    var stringIsConst: bool
    var valuestring: Option<CString>
    var valueint: int
    var valuedouble: real
    var name: Option<CString>

    /** cJSON_New_Item: a node with every field zero. */
    constructor ()
      ensures next == null && prev == null && child == null
      ensures Contents() == BLANK
    {
      next, prev, child := null, null, null;
      kind, isReference, stringIsConst := KFalse, false, false;
      valuestring, valueint, valuedouble, name := None, 0, 0.0, None;
    }

    function Contents(): Fields
      reads this
    {
      Fields(kind, isReference, stringIsConst, valuestring, valueint, valuedouble, name)
    }
  }

  /** The fields of a node other than its links. */
  datatype Fields = Fields(
    kind: Kind,
    isReference: bool,
    stringIsConst: bool,
    valuestring: Option<CString>,
    valueint: int,
    valuedouble: real,
    name: Option<CString>)

  const BLANK := Fields(KFalse, false, false, None, 0, 0.0, None)

  // ----- shapes

  datatype Shape = Leaf | Branch(node: Node, child: Shape, next: Shape)

  ghost function Nodes(sh: Shape): set<Node> {
    match sh
    case Leaf => {}
    case Branch(n, c, x) => {n} + Nodes(c) + Nodes(x)
  }

  /** The nodes of a shape in hand exist, so that allocating and calling cannot change them. */
  lemma {:induction false} ShapeAllocated(sh: Shape)
    ensures forall n :: n in Nodes(sh) ==> allocated(n)
  {
    match sh
    case Leaf =>
    case Branch(_, c, x) =>
      ShapeAllocated(c);
      ShapeAllocated(x);
  }

  /** No node occurs twice. */
  ghost predicate Distinct(sh: Shape) {
    match sh
    case Leaf => true
    case Branch(n, c, x) =>
      n !in Nodes(c) && n !in Nodes(x) && Nodes(c) !! Nodes(x) && Distinct(c) && Distinct(x)
  }

  /** Following child and next pointers from `p` visits exactly this shape. */
  ghost predicate Follows(sh: Shape, p: Node?)
    reads Nodes(sh)
  {
    match sh
    case Leaf => p == null
    case Branch(n, c, x) => p == n && Follows(c, n.child) && Follows(x, n.next)
  }

  /**
   * A stretch of siblings from `p`, whose first prev pointer is `prev`, up to but not including
   * `end`, reached from `endPrev`; every list of children in it is complete and cross-linked.
   */
  ghost predicate Stretch(sh: Shape, p: Node?, prev: Node?, end: Node?, endPrev: Node?)
    reads Nodes(sh)
  {
    match sh
    case Leaf => p == end && prev == endPrev
    case Branch(n, c, x) =>
      p == n && n.prev == prev && Linked(c, n.child, null) && Stretch(x, n.next, n, end, endPrev)
  }

  /** A complete chain of siblings, doubly linked, and likewise everything below it. */
  ghost predicate Linked(sh: Shape, p: Node?, prev: Node?)
    reads Nodes(sh)
  {
    match sh
    case Leaf => p == null
    case Branch(n, c, x) =>
      p == n && n.prev == prev && Linked(c, n.child, null) && Linked(x, n.next, n)
  }

  /** No node borrows its children from another tree. */
  ghost predicate NoReferences(sh: Shape)
    reads Nodes(sh)
  {
    forall n :: n in Nodes(sh) ==> !n.isReference
  }

  /** A list of children that owns every node below it exactly once. */
  ghost predicate Chain(sh: Shape, p: Node?)
    reads Nodes(sh)
  {
    Linked(sh, p, null) && Distinct(sh) && NoReferences(sh)
  }

  function Join(a: Shape, b: Shape): Shape {
    match a
    case Leaf => b
    case Branch(n, c, x) => Branch(n, c, Join(x, b))
  }

  lemma {:induction false} JoinNodes(a: Shape, b: Shape)
    ensures Nodes(Join(a, b)) == Nodes(a) + Nodes(b)
    ensures Distinct(a) && Distinct(b) && Nodes(a) !! Nodes(b) ==> Distinct(Join(a, b))
  {
    if a.Branch? { JoinNodes(a.next, b); }
  }

  /** A stretch followed by the chain it leads to is a chain. */
  lemma {:induction false} JoinLinked(a: Shape, p: Node?, prev: Node?, b: Shape, q: Node?, qprev: Node?)
    requires Stretch(a, p, prev, q, qprev) && Linked(b, q, qprev)
    ensures Linked(Join(a, b), p, prev)
  {
    if a.Branch? { JoinLinked(a.next, a.node.next, a.node, b, q, qprev); }
  }

  lemma {:induction false} JoinStretch(a: Shape, p: Node?, prev: Node?, b: Shape, q: Node?, qprev: Node?, end: Node?,
                                       endPrev: Node?)
    requires Stretch(a, p, prev, q, qprev) && Stretch(b, q, qprev, end, endPrev)
    ensures Stretch(Join(a, b), p, prev, end, endPrev)
  {
    if a.Branch? { JoinStretch(a.next, a.node.next, a.node, b, q, qprev, end, endPrev); }
  }

  lemma {:induction false} LinkedFollows(sh: Shape, p: Node?, prev: Node?)
    requires Linked(sh, p, prev)
    ensures Follows(sh, p)
  {
    if sh.Branch? {
      LinkedFollows(sh.child, sh.node.child, null);
      LinkedFollows(sh.next, sh.node.next, sh.node);
    }
  }

  // ----- contents

  /** What a chain of siblings holds, as a value. */
  datatype Snapshot = End | Snapshot(fields: Fields, child: Snapshot, next: Snapshot)

  ghost function Snap(sh: Shape): Snapshot
    reads Nodes(sh)
  {
    match sh
    case Leaf => End
    case Branch(n, c, x) => Snapshot(n.Contents(), Snap(c), Snap(x))
  }

  ghost function JoinSnap(a: Snapshot, b: Snapshot): Snapshot {
    match a
    case End => b
    case Snapshot(f, c, x) => Snapshot(f, c, JoinSnap(x, b))
  }

  lemma {:induction false} SnapJoin(a: Shape, b: Shape)
    ensures Snap(Join(a, b)) == JoinSnap(Snap(a), Snap(b))
  {
    if a.Branch? { SnapJoin(a.next, b); }
  }

  // ----- meaning

  function TextOf(s: Option<CString>): CString { match s case None => [] case Some(t) => t }

  /** The JSON value of an item with these fields and children. */
  function ValueOf(f: Fields, child: Snapshot): Value
    decreases child, 1
  {
    match f.kind
    case KFalse => False
    case KTrue => True
    case KNull => Null
    case KNumber => Number(f.valuedouble)
    case KString => String(TextOf(f.valuestring))
    case KArray => Array(ItemsOf(child))
    case KObject => Object(ItemsOf(child))
  }

  function ItemsOf(s: Snapshot): Items
    decreases s, 0
  {
    match s
    case End => Nil
    case Snapshot(f, c, x) => Cons(f.name, ValueOf(f, c), ItemsOf(x))
  }

  /**
   * What the printers ask of an item: numbers are C ints held alike in both number fields,
   * strings are present, and so are the names of object members.
   */
  predicate Ready(f: Fields, child: Snapshot)
    decreases child, 1
  {
    match f.kind
    case KNumber => f.valuedouble == f.valueint as real && INT_MIN <= f.valueint <= INT_MAX
    case KString => f.valuestring.Some?
    case KArray => ReadyItems(child, false)
    case KObject => ReadyItems(child, true)
    case _ => true
  }

  predicate ReadyItems(s: Snapshot, named: bool)
    decreases s, 0
  {
    match s
    case End => true
    case Snapshot(f, c, x) => (named ==> f.name.Some?) && Ready(f, c) && ReadyItems(x, named)
  }

  lemma {:induction false} ValueTextual(f: Fields, child: Snapshot)
    ensures Textual(ValueOf(f, child))
    decreases child, 1
  {
    ItemsTextual(child);
  }

  lemma {:induction false} ItemsTextual(s: Snapshot)
    ensures TextualItems(ItemsOf(s))
    decreases s, 0
  {
    if s.Snapshot? {
      ValueTextual(s.fields, s.child);
      ItemsTextual(s.next);
    }
  }

  /** The top items of a shape in order. */
  ghost function Tops(sh: Shape): seq<Node> {
    match sh
    case Leaf => []
    case Branch(n, _, x) => [n] + Tops(x)
  }

  /** The counting loop at the head of print_array and print_object. */
  method CountEntries(first: Node?, ghost sh: Shape) returns (n: nat)
    requires Follows(sh, first)
    ensures n == |Tops(sh)|
    ensures n == 0 <==> first == null
    ensures n == 0 <==> ItemsOf(Snap(sh)).Nil?
  {
    n := 0;
    var c := first;
    ghost var rest := sh;
    while c != null
      invariant Follows(rest, c) && n + |Tops(rest)| == |Tops(sh)|
      decreases rest
    {
      n, c, rest := n + 1, c.next, rest.next;
    }
  }

  /** One step along a list of siblings. */
  lemma FollowsStep(sh: Shape, p: Node)
    requires Follows(sh, p)
    ensures sh.Branch? && sh.node == p && p in Nodes(sh) && Nodes(sh.next) <= Nodes(sh) && sh.next < sh
    ensures Follows(sh.child, p.child) && Follows(sh.next, p.next)
    ensures Snap(sh) == Snapshot(p.Contents(), Snap(sh.child), Snap(sh.next))
  {
  }

  lemma FollowsEnd(sh: Shape)
    requires Follows(sh, null)
    ensures sh == Leaf && Snap(sh) == End
  {
  }

  /** What the printers may rely on for the first of several items. */
  lemma ReadyStep(s: Snapshot, named: bool)
    requires s.Snapshot? && ReadyItems(s, named)
    ensures Ready(s.fields, s.child) && ReadyItems(s.next, named) && (named ==> s.fields.name.Some?)
    ensures ItemsOf(s) == Cons(s.fields.name, ValueOf(s.fields, s.child), ItemsOf(s.next))
  {
  }
}
