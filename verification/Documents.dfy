/** Printing an item and parsing the text: what comes back, on values and on the heap. */
module Documents {
  import opened Bytes
  import opened Json
  import opened Parsing
  import opened Printing
  import opened RoundTrip
  import opened Tree
  import opened Blocks
  import opened Printer
  import opened Parser
  import opened TreeParser
  import opened Lifetime
  import opened TextMemory
  import opened Minify
  import opened GrammarMinify
  import opened GrammarPrint
  import G = Grammar

  /** A value without the names of array elements, which no text can show. */
  function Unnamed(v: Value): Value {
    match v
    case Array(l) => Array(UnnamedItems(l, false))
    case Object(l) => Object(UnnamedItems(l, true))
    case _ => v
  }

  function UnnamedItems(l: Items, keyed: bool): Items {
    match l
    case Nil => Nil
    case Cons(k, v, rest) => Cons(if keyed then k else None, Unnamed(v), UnnamedItems(rest, keyed))
  }

  /** The printers do not look at those names. */
  lemma {:induction false} UnnamedText(v: Value, depth: nat, fmt: bool)
    ensures PrintValue(Unnamed(v), depth, fmt) == PrintValue(v, depth, fmt)
    decreases v, 1
  {
    match v
    case Array(l) => UnnamedElems(l, depth, fmt);
    case Object(l) => UnnamedMembers(l, depth + 1, fmt);
    case _ =>
  }

  lemma {:induction false} UnnamedElems(l: Items, depth: nat, fmt: bool)
    ensures PrintElems(UnnamedItems(l, false), depth, fmt) == PrintElems(l, depth, fmt)
    decreases l, 0
  {
    if l.Cons? {
      UnnamedText(l.value, depth + 1, fmt);
      UnnamedElems(l.rest, depth, fmt);
    }
  }

  lemma {:induction false} UnnamedMembers(l: Items, depth: nat, fmt: bool)
    ensures PrintMembers(UnnamedItems(l, true), depth, fmt) == PrintMembers(l, depth, fmt)
    decreases l, 0
  {
    if l.Cons? {
      UnnamedText(l.value, depth, fmt);
      UnnamedMembers(l.rest, depth, fmt);
    }
  }

  /** What the printers accept is printable but for those names. */
  lemma {:induction false} ReadyUnnamed(f: Fields, child: Snapshot)
    requires Ready(f, child)
    ensures var v := ValueOf(f, child); Printable(Unnamed(v)) && (Unnamed(v) == v <==> Printable(v))
    decreases child, 1
  {
    match f.kind
    case KArray => ReadyUnnamedItems(child, false);
    case KObject => ReadyUnnamedItems(child, true);
    case _ =>
  }

  lemma {:induction false} ReadyUnnamedItems(s: Snapshot, keyed: bool)
    requires ReadyItems(s, keyed)
    ensures var l := ItemsOf(s);
            PrintableItems(UnnamedItems(l, keyed), keyed) && (UnnamedItems(l, keyed) == l <==> PrintableItems(l, keyed))
    decreases s, 0
  {
    if s.Snapshot? {
      ReadyUnnamed(s.fields, s.child);
      ReadyUnnamedItems(s.next, keyed);
    }
  }

  /**
   * Parsing what was printed of any item the printers accept gives its value back, without the
   * names of array elements; so it gives the very value if and only if there are none.
   */
  lemma ItemRoundTrip(f: Fields, child: Snapshot, fmt: bool)
    requires Ready(f, child)
    ensures var v := ValueOf(f, child); var p := ParseText(PrintValue(v, 0, fmt));
            p == Parsed(Unnamed(v), []) && (p == Parsed(v, []) <==> Printable(v))
    ensures ParseValue(Skip(PrintValue(ValueOf(f, child), 0, fmt))).Parsed?
  {
    var v := ValueOf(f, child);
    ReadyUnnamed(f, child);
    UnnamedText(v, 0, fmt);
    PrintParse(Unnamed(v), fmt);
    hide ParseValue, PrintValue, Skip;
  }

  /** The text of any item the printers accept is JSON for that value. */
  lemma ItemIsJson(f: Fields, child: Snapshot, depth: nat, fmt: bool)
    requires Ready(f, child)
    ensures G.Denotes(PrintValue(ValueOf(f, child), depth, fmt), Unnamed(ValueOf(f, child)))
  {
    var v := ValueOf(f, child);
    ReadyUnnamed(f, child);
    UnnamedText(v, depth, fmt);
    PrintedDenotes(Unnamed(v), depth, fmt);
  }

  /** The least example: an array of one null that carries a name. */
  lemma NameLost(fmt: bool)
    ensures var child := Snapshot(BLANK.(kind := KNull, name := Some([0x61])), End, End);
            var f := BLANK.(kind := KArray);
            Ready(f, child) && ParseText(PrintValue(ValueOf(f, child), 0, fmt)) != Parsed(ValueOf(f, child), [])
  {
    var child := Snapshot(BLANK.(kind := KNull, name := Some([0x61])), End, End);
    var f := BLANK.(kind := KArray);
    assert ItemsOf(child) == Cons(Some([0x61]), Null, Nil) && !Printable(ValueOf(f, child));
    assert ReadyItems(child, false);
    ItemRoundTrip(f, child, fmt);
  }

  /** A parsed tree whose numbers are C ints holds them alike in both fields, and can be printed. */
  lemma {:induction false} HeldReady(f: Fields, child: Snapshot)
    requires Held(f, child) && Printable(ValueOf(f, child))
    ensures Ready(f, child)
    decreases child, 1
  {
    hide Truncate, IsInt;
    match f.kind
    case KNumber => NumberAlike(f.valuedouble);
    case KArray => HeldReadyItems(child, false);
    case KObject => HeldReadyItems(child, true);
    case _ =>
  }

  lemma NumberAlike(d: real)
    requires IsInt(d)
    ensures Truncate(d) as real == d && INT_MIN <= Truncate(d) <= INT_MAX
  {
    var n := d.Floor;
    assert d == n as real;
    hide Truncate;
  }

  lemma {:induction false} HeldReadyItems(s: Snapshot, named: bool)
    requires HeldItems(s, named) && PrintableItems(ItemsOf(s), named)
    ensures ReadyItems(s, named)
    decreases s, 0
  {
    if s.Snapshot? {
      HeldReady(s.fields, s.child);
      HeldReadyItems(s.next, named);
    }
  }

  /** cJSON_Print or cJSON_PrintUnformatted, and cJSON_ParseWithOpts on what it returned. */
  method PrintAndParse(item: Node, ghost ch: Shape, fmt: bool, heap: TextHeap, mem: Memory)
    returns (c: Node?, ghost tree: Shape)
    requires Follows(ch, item.child) && Ready(item.Contents(), Snap(ch))
    modifies heap, mem
    ensures c != null && tree.Branch? && c == tree.node && fresh(Nodes(tree)) && Chain(tree, c)
    ensures ValueOf(c.Contents(), Snap(tree.child)) == Unnamed(ValueOf(item.Contents(), Snap(ch)))
    ensures Ready(c.Contents(), Snap(tree.child))
  {
    hide Held, PrintValue, ParseValue, ValueOf, Ready, Follows, Snap, Chain, Skip;
    ShapeAllocated(ch);
    ghost var f, below := item.Contents(), Snap(ch);
    ItemRoundTrip(f, below, fmt);
    ghost var s := PrintValue(ValueOf(f, below), 0, fmt);
    var out := PrintValueItem(item, ch, 0, fmt, heap);
    assert Snap(ch) == below && item.Contents() == f;
    var end;
    ReadyUnnamed(f, below);
    c, end, tree := ParseWithOpts(out, s, true, mem);
    HeldReady(c.Contents(), Snap(tree.child));
    assert Snap(ch) == below;
  }

  /** cJSON_Minify in place on JSON with comments, and cJSON_ParseWithOpts on what it leaves. */
  method MinifyAndParse(json: array<byte>, ghost d: G.Document, mem: Memory) returns (c: Node?, ghost tree: Shape)
    requires G.ValidDocument(d, true) && HoldsAt(json, 0, G.WrittenDocument(d))
    modifies json, mem
    ensures c != null && tree.Branch? && c == tree.node && fresh(Nodes(tree)) && Chain(tree, c)
    ensures ValueOf(c.Contents(), Snap(tree.child)) == G.Meaning(d.value)
    ensures mem.live == old(mem.live) + Allocated(tree)
  {
    hide ParseValue, ValueOf, Chain, Skip, Minified, Closed, G.Meaning, G.WrittenDocument, G.ValidDocument, Allocated;
    ghost var s := G.WrittenDocument(d);
    DocumentMinified(d);
    MinifyInPlace(json, s);
    var end;
    c, end, tree := ParseWithOpts(json, Minified(s), true, mem);
  }
}
