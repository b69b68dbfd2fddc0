/** parse_value, parse_array and parse_object: linking parsed items into a tree. */
module TreeParser {
  import opened Bytes
  import opened Json
  import opened StringLiteral
  import opened Numbers
  import opened Parsing
  import opened Tree
  import opened Blocks
  import opened Parser
  import opened Chains

  // ----- one item at a time

  /** What parse_array or parse_object reads before it looks for a comma. */
  datatype Head = Head(key: Option<seq<byte>>, value: Value, rest: seq<byte>) | NoHead | BadHead

  function ValueHead(key: Option<seq<byte>>, p: Parsed): Head {
    match p
    case Parsed(v, rest) => Head(key, v, Skip(rest))
    case Reject => NoHead
    case Malformed => BadHead
  }

  function ItemHead(s: seq<byte>, keyed: bool): Head {
    var t := Skip(s);
    if !keyed then ValueHead(None, ParseValue(t))
    else if !Starts(t, QUOTE) then NoHead
    else
      var d := DecodeBody(t[1..]);
      if d.BadEscape? then BadHead
      else
        var u := Skip(d.rest);
        if Starts(u, COLON) then ValueHead(Some(d.text), ParseValue(Skip(u[1..]))) else NoHead
  }

  function Close(keyed: bool): byte { if keyed then RBRACE else RBRACKET }

  function ParseItems(s: seq<byte>, keyed: bool): ParsedItems {
    if keyed then ParseMembers(s) else ParseElems(s)
  }

  /** Items already read, in front of what the rest of the text gives. */
  function Prepend(l: Items, r: ParsedItems): ParsedItems {
    match r
    case ParsedItems(m, rest) => ParsedItems(Append(l, m), rest)
    case e => e
  }

  function Append(a: Items, b: Items): Items {
    match a
    case Nil => b
    case Cons(k, v, rest) => Cons(k, v, Append(rest, b))
  }

  /** The recursive definition read as a loop: one item, then the decision what follows. */
  lemma ItemsByHead(s: seq<byte>, keyed: bool)
    ensures ParseItems(s, keyed) ==
      match ItemHead(s, keyed)
      case Head(k, v, rest) => AfterItem(k, v, rest, Close(keyed))
      case NoHead => RejectItems
      case BadHead => MalformedItems
  {
    hide ParseValue, AfterItem, DecodeBody;
  }

  lemma CommaFollows(k: Option<seq<byte>>, v: Value, t: seq<byte>, keyed: bool)
    requires Starts(t, COMMA)
    ensures AfterItem(k, v, t, Close(keyed)) == Prepend(Cons(k, v, Nil), ParseItems(t[1..], keyed))
  {
    hide ParseElems, ParseMembers;
    var r := ParseItems(t[1..], keyed);
    if r.ParsedItems? { assert Append(Nil, r.items) == r.items; }
  }

  lemma {:induction false} AppendAssoc(a: Items, b: Items, c: Items)
    ensures Append(Append(a, b), c) == Append(a, Append(b, c))
  {
    if a.Cons? { AppendAssoc(a.rest, b, c); }
  }

  lemma PrependTwice(a: Items, b: Items, r: ParsedItems)
    ensures Prepend(a, Prepend(b, r)) == Prepend(Append(a, b), r)
  {
    if r.ParsedItems? { AppendAssoc(a, b, r.items); }
  }

  lemma {:induction false} ItemsOfJoin(a: Snapshot, b: Snapshot)
    ensures ItemsOf(JoinSnap(a, b)) == Append(ItemsOf(a), ItemsOf(b))
  {
    if a.Snapshot? { ItemsOfJoin(a.next, b); }
  }

  lemma BuiltItems(pre: Shape, child: Node, below: Shape)
    ensures ItemsOf(Snap(Built(pre, child, below)))
         == Append(ItemsOf(Snap(pre)), Cons(child.name, ValueOf(child.Contents(), Snap(below)), Nil))
  {
    var last := Snapshot(child.Contents(), Snap(below), End);
    BuiltSnap(pre, child, below);
    ItemsOfJoin(Snap(pre), last);
    assert ItemsOf(last) == Cons(child.name, ValueOf(child.Contents(), Snap(below)), ItemsOf(End));
  }

  /** The string parse_value may leave in its item. */
  ghost function TextOrNone(n: Node): set<Block>
    reads n`valuestring
  {
    if n.valuestring.Some? then {TextBlock(n)} else {}
  }

  /**
   * The fields that the value does not show: both number fields alike but for truncation, a 1
   * for true, strings present where they belong, and names on members.
   */
  predicate Held(f: Fields, child: Snapshot)
    decreases child, 1
  {
    match f.kind
    case KTrue => f.valueint == 1
    case KNumber => f.valueint == Truncate(f.valuedouble)
    case KString => f.valuestring.Some?
    case KArray => HeldItems(child, false)
    case KObject => HeldItems(child, true)
    case _ => true
  }

  predicate HeldItems(s: Snapshot, named: bool)
    decreases s, 0
  {
    match s
    case End => true
    case Snapshot(f, c, x) => (named ==> f.name.Some?) && Held(f, c) && HeldItems(x, named)
  }

  lemma {:induction false} HeldJoin(a: Snapshot, b: Snapshot, named: bool)
    ensures HeldItems(JoinSnap(a, b), named) <==> HeldItems(a, named) && HeldItems(b, named)
  {
    if a.Snapshot? { HeldJoin(a.next, b, named); }
  }

  lemma BuiltHeld(pre: Shape, child: Node, below: Shape, named: bool)
    ensures HeldItems(Snap(Built(pre, child, below)), named) <==>
            HeldItems(Snap(pre), named) && (named ==> child.name.Some?) && Held(child.Contents(), Snap(below))
  {
    var last := Snapshot(child.Contents(), Snap(below), End);
    BuiltSnap(pre, child, below);
    HeldJoin(Snap(pre), last, named);
    assert HeldItems(End, named);
  }

  // ----- the recursive methods

  /**
   * parse_value for an item without children. It accepts exactly what ParseValue accepts and
   * stops where ParseValue stops; in either case the children hung below the item are fresh
   * and properly linked, so that cJSON_Delete can release what a rejected text left behind.
   */
  method ParseValueItem(item: Node, text: array<byte>, i: nat, ghost s: seq<byte>, mem: Memory)
    returns (ok: bool, end: nat, ghost ch: Shape)
    requires Unread(text, s, 0) && i <= |s| && item.child == null && !ParseValue(s[i..]).Malformed?
    requires item.valuestring == None && TextBlock(item) !in mem.live
    modifies item`child, item`kind, item`valuestring, item`valueint, item`valuedouble, mem
    ensures Chain(ch, item.child) && fresh(Nodes(ch)) && OwnNames(ch)
    ensures mem.live == old(mem.live) + TextOrNone(item) + Allocated(ch)
    ensures var p := ParseValue(s[i..]);
            ok == p.Parsed? &&
            (ok ==> i < end <= |s| && s[end..] == p.rest && ValueOf(item.Contents(), Snap(ch)) == p.value)
    ensures ok ==> Held(item.Contents(), Snap(ch))
    decreases |s| - i, 1
  {
    hide ParseArray, ParseObject, DecodeBody, ParseNumber;
    Rest(s, i);
    Dispatch(s[i..]);
    ch := Leaf;
    var word := KeywordAt(text, i, NULL_TEXT, s);
    if word {
      item.kind := KNull;
      return true, i + 4, ch;
    }
    word := KeywordAt(text, i, FALSE_TEXT, s);
    if word {
      item.kind := KFalse;
      return true, i + 5, ch;
    }
    word := KeywordAt(text, i, TRUE_TEXT, s);
    if word {
      item.kind := KTrue;
      item.valueint := 1;
      return true, i + 4, ch;
    }
    if text[i] == QUOTE {
      end := ParseStringItem(item, text, i, s, mem);
      return true, end, ch;
    }
    if text[i] == MINUS || (text[i] >= 0x30 && text[i] <= 0x39) {
      end := ParseNumberItem(item, text, i, s);
      return true, end, ch;
    }
    if text[i] == LBRACKET {
      ok, end, ch := ParseArrayItem(item, text, i, s, mem);
      return;
    }
    if text[i] == LBRACE {
      ok, end, ch := ParseObjectItem(item, text, i, s, mem);
      return;
    }
    ok, end := false, i;
  }

  /** `!strncmp(value, word, strlen(word))` */
  method KeywordAt(text: array<byte>, i: nat, word: seq<byte>, ghost s: seq<byte>) returns (yes: bool)
    requires Unread(text, s, 0) && i <= |s| && NulFree(word)
    ensures yes == (word <= s[i..])
  {
    var k := 0;
    while k < |word|
      invariant 0 <= k <= |word| && i + k <= |s| && word[..k] == s[i..][..k]
    {
      if text[i + k] != word[k] {
        if i + k < |s| { assert s[i..][k] == s[i + k]; }
        return false;
      }
      assert s[i..][k] == s[i + k];
      k := k + 1;
    }
    return true;
  }

  /** parse_array */
  method ParseArrayItem(item: Node, text: array<byte>, i: nat, ghost s: seq<byte>, mem: Memory)
    returns (ok: bool, end: nat, ghost ch: Shape)
    requires Unread(text, s, 0) && i < |s| && s[i] == LBRACKET && item.child == null && !ParseArray(s[i..]).Malformed?
    modifies item`child, item`kind, mem
    ensures Chain(ch, item.child) && fresh(Nodes(ch)) && OwnNames(ch)
    ensures mem.live == old(mem.live) + Allocated(ch)
    ensures var p := ParseArray(s[i..]);
            ok == p.Parsed? &&
            (ok ==> i < end <= |s| && s[end..] == p.rest && ValueOf(item.Contents(), Snap(ch)) == p.value)
    ensures ok ==> Held(item.Contents(), Snap(ch))
    decreases |s| - i, 0
  {
    Rest(s, i);
    item.kind := KArray;
    ch := Leaf;
    var value := SkipAt(text, i + 1, s);
    Rest(s, value);
    if text[value] == RBRACKET { return true, value + 1, ch; }
    hide ParseElems, ItemsOf, HeldItems;
    ok, end, ch := ParseChildren(item, text, value, s, false, mem);
  }

  /** parse_object */
  method ParseObjectItem(item: Node, text: array<byte>, i: nat, ghost s: seq<byte>, mem: Memory)
    returns (ok: bool, end: nat, ghost ch: Shape)
    requires Unread(text, s, 0) && i < |s| && s[i] == LBRACE && item.child == null && !ParseObject(s[i..]).Malformed?
    modifies item`child, item`kind, mem
    ensures Chain(ch, item.child) && fresh(Nodes(ch)) && OwnNames(ch)
    ensures mem.live == old(mem.live) + Allocated(ch)
    ensures var p := ParseObject(s[i..]);
            ok == p.Parsed? &&
            (ok ==> i < end <= |s| && s[end..] == p.rest && ValueOf(item.Contents(), Snap(ch)) == p.value)
    ensures ok ==> Held(item.Contents(), Snap(ch))
    decreases |s| - i, 0
  {
    Rest(s, i);
    item.kind := KObject;
    ch := Leaf;
    var value := SkipAt(text, i + 1, s);
    Rest(s, value);
    if text[value] == RBRACE { return true, value + 1, ch; }
    hide ParseMembers, ItemsOf, HeldItems;
    ok, end, ch := ParseChildren(item, text, value, s, true, mem);
  }

  /** The key of a member, and the colon behind it. */
  method ParseKey(child: Node, text: array<byte>, i: nat, ghost s: seq<byte>, mem: Memory) returns (ok: bool, end: nat)
    requires Unread(text, s, 0) && i <= |s| && child.name == None
    requires Starts(s[i..], QUOTE) ==> DecodeBody(s[i + 1..]).Decoded?
    requires child.valuestring == None && TextBlock(child) !in mem.live && NameBlock(child) !in mem.live
    modifies child`kind, child`valuestring, child`name, mem
    ensures child.valuestring == None && mem.live == old(mem.live) + Strings(child)
    ensures if Starts(s[i..], QUOTE) then
              var d := DecodeBody(s[i + 1..]);
              child.name == Some(d.text) && ok == Starts(Skip(d.rest), COLON) &&
              (ok ==> i < end <= |s| && s[end..] == Skip(Skip(d.rest)[1..]))
            else !ok
  {
    hide DecodeBody, Skip;
    Rest(s, i);
    if text[i] != QUOTE { return false, i; }
    end := ParseStringItem(child, text, i, s, mem);
    end := SkipAt(text, end, s);
    child.name := child.valuestring;
    child.valuestring := None;
    mem.Move(child);
    Rest(s, end);
    if text[end] != COLON { return false, end; }
    ok := true;
    end := SkipAt(text, end + 1, s);
  }

  /** One element, or one key, colon and value, and the whitespace behind it. */
  method ParseItem(child: Node, text: array<byte>, i: nat, ghost s: seq<byte>, keyed: bool, mem: Memory)
    returns (ok: bool, end: nat, ghost below: Shape)
    requires Unread(text, s, 0) && i <= |s| && child.child == null && child.name == None
    requires !ItemHead(s[i..], keyed).BadHead?
    requires child.valuestring == None && TextBlock(child) !in mem.live && NameBlock(child) !in mem.live
    modifies child`child, child`kind, child`valuestring, child`valueint, child`valuedouble, child`name, mem
    ensures Chain(below, child.child) && fresh(Nodes(below)) && OwnNames(below)
    ensures mem.live == old(mem.live) + Strings(child) + Allocated(below)
    ensures var h := ItemHead(s[i..], keyed);
            ok == h.Head? &&
            (ok ==> i < end <= |s| && s[end..] == h.rest && child.name == h.key &&
                    ValueOf(child.Contents(), Snap(below)) == h.value)
    ensures ok ==> (keyed ==> child.name.Some?) && Held(child.Contents(), Snap(below))
    decreases |s| - i, 2
  {
    hide ParseValue, DecodeBody, ValueOf, Skip, Chain, OwnNames, Allocated, Held;
    below := Leaf;
    NoBlocks();
    var value := SkipAt(text, i, s);
    if keyed {
      Rest(s, value);
      ok, value := ParseKey(child, text, value, s, mem);
      NoBlocks();
      if !ok { return false, value, below; }
    }
    ok, end, below := ParseValueItem(child, text, value, s, mem);
    if ok {
      ShapeAllocated(below);
      end := SkipAt(text, end, s);
      assert Chain(below, child.child);
    }
  }

  lemma NoBlocks()
    ensures Allocated(Leaf) == {} && OwnNames(Leaf) && Chain(Leaf, null)
  {
  }

  /** A new node behind `child`, not filled yet. */
  method AppendItem(ghost first: Node?, ghost pre: Shape, child: Node, ghost below: Shape, mem: Memory,
                    ghost before: set<Block>)
    returns (item: Node)
    requires Building(first, pre, child, below) && Paid(before, mem.live, pre, child, below)
    modifies child`next, mem
    ensures fresh(item) && item.child == null && item.Contents() == BLANK
    ensures TextBlock(item) !in mem.live && NameBlock(item) !in mem.live
    ensures OwnNames(Built(pre, child, below)) &&
            mem.live == before + Allocated(Built(pre, child, below)) + {NodeBlock(item)}
    ensures Building(first, Built(pre, child, below), item, Leaf) && Chain(Leaf, null)
    ensures Nodes(Built(pre, child, below)) == Nodes(pre) + Nodes(below) + {child}
    ensures Snap(Built(pre, child, below)) == old(Snap(Built(pre, child, below)))
  {
    hide Built, Snap, AllBlocks, Allocated, OwnNames, Paid;
    PaidInFull(before, mem.live, pre, child, below);
    ghost var paid := Allocated(Built(pre, child, below));
    ShapeAllocated(pre);
    ShapeAllocated(below);
    ShapeAllocated(Built(pre, child, below));
    BuiltChain(first, pre, child, below);
    ghost var held := Snap(Built(pre, child, below));
    item := NewItem(mem);
    assert Building(first, pre, child, below) && Snap(Built(pre, child, below)) == held;
    assert OwnNames(Built(pre, child, below)) && Allocated(Built(pre, child, below)) == paid;
    LinkAfter(first, pre, child, below, item, Leaf);
  }

  /** What the loop has allocated since `before`: everything below the array or object. */
  ghost predicate Paid(before: set<Block>, live: set<Block>, pre: Shape, child: Node, below: Shape)
    reads Nodes(pre)`valuestring, Nodes(pre)`name, Nodes(pre)`stringIsConst, child`valuestring, child`name
    reads child`stringIsConst, Nodes(below)`valuestring, Nodes(below)`name, Nodes(below)`stringIsConst
  {
    OwnNames(pre) && !child.stringIsConst && OwnNames(below) &&
    live == before + Allocated(pre) + AllBlocks(child) + Allocated(below)
  }

  lemma PaidNext(before: set<Block>, pre: Shape, live: set<Block>, item: Node, hung: Shape)
    requires OwnNames(pre) && !item.stringIsConst && OwnNames(hung)
    requires live == before + Allocated(pre) + {NodeBlock(item)} + Strings(item) + Allocated(hung)
    ensures Paid(before, live, pre, item, hung)
  {
  }

  /** One turn of that loop: a node is linked behind `child` and filled from the text behind the comma. */
  method ParseNext(ghost first: Node?, ghost pre: Shape, child: Node, ghost below: Shape,
                   text: array<byte>, value: nat, ghost s: seq<byte>, keyed: bool, mem: Memory,
                   ghost before: set<Block>)
    returns (ok: bool, end: nat, item: Node, ghost hung: Shape)
    requires Building(first, pre, child, below) && Unread(text, s, 0) && value < |s|
    requires !ItemHead(s[value + 1..], keyed).BadHead? && Paid(before, mem.live, pre, child, below)
    modifies child`next, mem
    ensures fresh(item) && fresh(Nodes(hung)) && Building(first, Built(pre, child, below), item, hung)
    ensures Paid(before, mem.live, Built(pre, child, below), item, hung)
    ensures Nodes(Built(pre, child, below)) == Nodes(pre) + Nodes(below) + {child}
    ensures Snap(Built(pre, child, below)) == old(Snap(Built(pre, child, below)))
    ensures var h := ItemHead(s[value + 1..], keyed);
            ok == h.Head? &&
            (ok ==> value < end <= |s| && s[end..] == h.rest && item.name == h.key &&
                    ValueOf(item.Contents(), Snap(hung)) == h.value)
    ensures ok ==> (keyed ==> item.name.Some?) && Held(item.Contents(), Snap(hung))
    decreases |s| - value, 2
  {
    hide ItemHead, ItemsOf, ValueOf, Built, Snap, Allocated, OwnNames, Strings, Paid, Held;
    item := AppendItem(first, pre, child, below, mem, before);
    ghost var whole := Built(pre, child, below);
    ShapeAllocated(whole);
    ghost var done, paid := Snap(whole), Allocated(whole);
    assert Stretch(whole, first, null, item, item.prev);
    ok, end, hung := ParseItem(item, text, value + 1, s, keyed, mem);
    assert Snap(whole) == done && Allocated(whole) == paid && OwnNames(whole);
    assert Stretch(whole, first, null, item, item.prev);
    PaidNext(before, whole, mem.live, item, hung);
  }

  lemma PaidInFull(before: set<Block>, live: set<Block>, pre: Shape, child: Node, below: Shape)
    requires Paid(before, live, pre, child, below)
    ensures OwnNames(Built(pre, child, below)) && live == before + Allocated(Built(pre, child, below))
  {
    hide AllBlocks, Allocated, OwnNames, Built;
    BuiltBlocks(pre, child, below);
  }

  /** What the loop has read so far, in terms of what the whole text gives. */
  ghost predicate LoopState(whole: ParsedItems, l: Items, key: Option<seq<byte>>, v: Value, t: seq<byte>, keyed: bool) {
    whole == Prepend(l, AfterItem(key, v, t, Close(keyed)))
  }

  /** The loop of parse_array and parse_object from the first item on. */
  method ParseChildren(item: Node, text: array<byte>, i: nat, ghost s: seq<byte>, keyed: bool, mem: Memory)
    returns (ok: bool, end: nat, ghost ch: Shape)
    requires Unread(text, s, 0) && i <= |s| && item.child == null && !ParseItems(s[i..], keyed).MalformedItems?
    modifies item`child, mem
    ensures Chain(ch, item.child) && fresh(Nodes(ch)) && OwnNames(ch) && mem.live == old(mem.live) + Allocated(ch)
    ensures var p := ParseItems(s[i..], keyed);
            ok == p.ParsedItems? && (ok ==> i < end <= |s| && s[end..] == p.rest && ItemsOf(Snap(ch)) == p.items)
    ensures ok ==> HeldItems(Snap(ch), keyed)
    decreases |s| - i, 3
  {
    hide ParseItems, ItemHead, ItemsOf, ValueOf, Skip, Built, LoopState, Building, Paid, AllBlocks, Allocated, OwnNames;
    hide Held, HeldItems;
    ghost var whole := ParseItems(s[i..], keyed);
    FirstItem(s[i..], keyed);
    var child;
    var value: nat;
    ghost var below;
    ok, value, child, below := ParseFirst(item, text, i, s, keyed, mem);
    ghost var pre := Leaf;
    NoItems();
    while ok && text[value] == COMMA
      invariant Building(item.child, pre, child, below) && fresh(Nodes(pre)) && fresh(child) && fresh(Nodes(below))
      invariant Paid(old(mem.live), mem.live, pre, child, below)
      invariant ok ==> i < value <= |s|
      invariant ok ==>
        LoopState(whole, ItemsOf(Snap(pre)), child.name, ValueOf(child.Contents(), Snap(below)), s[value..], keyed)
      invariant !ok ==> whole.RejectItems?
      invariant ok ==> HeldItems(Snap(pre), keyed) && (keyed ==> child.name.Some?)
      invariant ok ==> Held(child.Contents(), Snap(below))
      decreases ok, |s| - value
    {
      Rest(s, value);
      NextItem(whole, ItemsOf(Snap(pre)), child.name, ValueOf(child.Contents(), Snap(below)), s[value..], keyed);
      BuiltItems(pre, child, below);
      BuiltHeld(pre, child, below, keyed);
      ghost var longer := Built(pre, child, below);
      ok, value, child, below := ParseNext(item.child, pre, child, below, text, value, s, keyed, mem, old(mem.live));
      pre := longer;
    }
    ch := Built(pre, child, below);
    BuiltChain(item.child, pre, child, below);
    BuiltItems(pre, child, below);
    BuiltHeld(pre, child, below, keyed);
    PaidInFull(old(mem.live), mem.live, pre, child, below);
    if ok {
      Rest(s, value);
      LastItem(whole, ItemsOf(Snap(pre)), child.name, ValueOf(child.Contents(), Snap(below)), s[value..], keyed);
      ok := text[value] == Close(keyed);
    }
    end := value + 1;
  }

  /** `item->child=child=cJSON_New_Item()` and the first item. */
  method ParseFirst(item: Node, text: array<byte>, i: nat, ghost s: seq<byte>, keyed: bool, mem: Memory)
    returns (ok: bool, end: nat, child: Node, ghost below: Shape)
    requires Unread(text, s, 0) && i <= |s| && !ItemHead(s[i..], keyed).BadHead?
    modifies item`child, mem
    ensures Paid(old(mem.live), mem.live, Leaf, child, below)
    ensures fresh(child) && item.child == child && fresh(Nodes(below)) && Building(child, Leaf, child, below)
    ensures var h := ItemHead(s[i..], keyed);
            ok == h.Head? &&
            (ok ==> i < end <= |s| && s[end..] == h.rest && child.name == h.key &&
                    ValueOf(child.Contents(), Snap(below)) == h.value)
    ensures ok ==> (keyed ==> child.name.Some?) && Held(child.Contents(), Snap(below))
    decreases |s| - i, 3, 0
  {
    hide ItemHead, ValueOf, Held;
    child := NewItem(mem);
    item.child := child;
    ok, end, below := ParseItem(child, text, i, s, keyed, mem);
  }

  lemma NoItems()
    ensures ItemsOf(End) == Nil && HeldItems(End, false) && HeldItems(End, true)
  {
  }

  lemma LastItem(whole: ParsedItems, l: Items, k: Option<seq<byte>>, v: Value, t: seq<byte>, keyed: bool)
    requires !Starts(t, COMMA) && LoopState(whole, l, k, v, t, keyed)
    ensures whole == if Starts(t, Close(keyed)) then ParsedItems(Append(l, Cons(k, v, Nil)), t[1..]) else RejectItems
  {
  }

  lemma FirstItem(s: seq<byte>, keyed: bool)
    requires !ParseItems(s, keyed).MalformedItems?
    ensures var h := ItemHead(s, keyed);
            !h.BadHead? && (h.NoHead? ==> ParseItems(s, keyed).RejectItems?) &&
            (h.Head? ==> LoopState(ParseItems(s, keyed), Nil, h.key, h.value, h.rest, keyed))
  {
    hide ParseItems, ItemHead, AfterItem;
    ItemsByHead(s, keyed);
  }

  lemma NextItem(whole: ParsedItems, l: Items, k: Option<seq<byte>>, v: Value, t: seq<byte>, keyed: bool)
    requires Starts(t, COMMA) && !whole.MalformedItems? && LoopState(whole, l, k, v, t, keyed)
    ensures var h := ItemHead(t[1..], keyed);
            !h.BadHead? && (h.NoHead? ==> whole.RejectItems?) &&
            (h.Head? ==> LoopState(whole, Append(l, Cons(k, v, Nil)), h.key, h.value, h.rest, keyed))
  {
    hide ParseItems, ItemHead, AfterItem;
    CommaFollows(k, v, t, keyed);
    PrependTwice(l, Cons(k, v, Nil), ParseItems(t[1..], keyed));
    ItemsByHead(t[1..], keyed);
  }
}
