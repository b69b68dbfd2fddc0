/** The buffered printer: the growing print buffer, and print_value writing into it. */
module BufferedPrinter {
  import opened Bytes
  import opened Json
  import opened StringLiteral
  import opened Numbers
  import opened Printing
  import opened Tree
  import opened CStrings
  import opened Growth
  import opened TextMemory

  const LIMIT := 0x4000_0000

  /** Slack a request may have over the text that is then written. */
  const SLACK := 20

  class PrintBuffer {
    const heap: TextHeap
    var buffer: array<byte>
    var length: int
    var offset: nat

    /** The capacities so far, the first and the present one included, and the largest request that made it grow. */
    ghost var sizes: seq<int>

    /** The texts that were allocated before this buffer. */
    ghost const others: set<array<byte>>

    ghost var largest: int

    ghost predicate Valid()
      reads this, heap
    {
      heap.live == others + {buffer} && buffer !in others &&
      length == buffer.Length && offset <= length && Grown(sizes) && length == sizes[|sizes| - 1] &&
      (|sizes| > 1 ==> length < 2 * largest)
    }

    /** The text that has been counted. */
    ghost function Out(): (s: seq<byte>)
      requires Valid()
      reads this, heap, buffer
      ensures |s| == offset
    {
      buffer[..offset]
    }

    /** The buffer holds the text t, of which a tail may not be counted yet. */
    ghost predicate Pending(t: seq<byte>)
      requires Valid()
      reads this, heap, buffer
    {
      offset <= |t| < length && buffer[..|t|] == t && buffer[|t|] == 0
    }

    constructor (prebuffer: int, heap: TextHeap)
      requires prebuffer >= 1
      modifies heap
      ensures Valid() && this.heap == heap && others == old(heap.live) && fresh(buffer)
      ensures offset == 0 && sizes == [prebuffer] && largest == 0
    {
      ghost var before := heap.live;
      var b := Malloc(prebuffer, heap);
      this.heap, others, buffer := heap, before, b;
      length, offset := prebuffer, 0;
      sizes, largest := [prebuffer], 0;
    }

    /** Room for `needed` more bytes; what was counted is kept, in the old array or in a copy. */
    method Ensure(needed: nat) returns (at: nat)
      requires Valid() && 1 <= offset + needed <= LIMIT
      modifies this, heap
      ensures Valid() && offset == old(offset) && at == offset && offset + needed <= length
      ensures if old(offset) + needed <= old(length) then buffer == old(buffer) && sizes == old(sizes)
              else fresh(buffer) && LeastPow2(offset + needed, length) && sizes == old(sizes) + [length]
      ensures Out() == old(Out()) && largest <= Max(old(largest), offset + needed)
    {
      at := offset;
      if offset + needed <= length { return; }
      var newsize := Pow2gt(offset + needed);
      var newbuffer := Malloc(newsize, heap);
      forall i | 0 <= i < length { newbuffer[i] := buffer[i]; }
      assert newbuffer[..offset] == buffer[..offset];
      GrownMore(sizes, newsize);
      sizes, largest := sizes + [newsize], if largest < offset + needed then offset + needed else largest;
      heap.Free(buffer);
      length := newsize;
      buffer := newbuffer;
    }

    /** `ptr = ensure(p, ...)`, bytes written through `ptr`, and `p->offset` moved behind them. */
    method Emit(s: seq<byte>, terminated: bool)
      requires Valid() && (s != [] || terminated) && offset + |s| + 1 <= LIMIT
      modifies this, heap, buffer
      ensures Valid() && (buffer == old(buffer) || fresh(buffer)) && old(sizes) <= sizes
      ensures Out() == old(Out()) + s && largest <= Max(old(largest), offset + 1)
    {
      var ptr := Ensure(|s| + (if terminated then 1 else 0));
      ptr := Store(buffer, ptr, s);
      if terminated { buffer[ptr] := 0; }
      offset := offset + |s|;
    }

    /** Room for `needed` bytes, in which a C string is written without counting it. */
    method Finish(s: seq<byte>, needed: nat)
      requires Valid() && |s| < needed && offset + needed <= LIMIT
      modifies this, heap, buffer
      ensures Valid() && (buffer == old(buffer) || fresh(buffer)) && old(sizes) <= sizes
      ensures offset == old(offset) && Pending(old(Out()) + s) && largest <= Max(old(largest), offset + needed)
    {
      var ptr := Ensure(needed);
      var end := Store(buffer, ptr, s);
      buffer[end] := 0;
    }

    /** `p->offset = update(p)`: everything pending is counted, wherever the offset stood in it. */
    method Update(ghost base: seq<byte>, ghost text: seq<byte>)
      requires Valid() && Pending(base + text) && |base| <= offset && NulFree(text)
      modifies this`offset
      ensures Valid() && Out() == base + text
    {
      ghost var t := base + text;
      assert buffer[offset..|t|] == t[offset..];
      assert t[offset..] == text[offset - |base|..];
      var n := Strlen(buffer, offset, t[offset..]);
      offset := offset + n;
    }
  }

  function Max(a: int, b: int): int { if a < b then b else a }

  lemma Pow2Doubles(a: int, b: int)
    requires IsPow2(a) && IsPow2(b) && a < b
    ensures 2 * a <= b
  {
    hide Pow2;
    var i: nat :| a == Pow2(i);
    var j: nat :| b == Pow2(j);
    if j <= i { Pow2Monotone(j, i); } else { Pow2Monotone(i, j); }
  }

  /** A first capacity, and then ever larger powers of two. */
  ghost predicate Grown(sizes: seq<int>) {
    |sizes| >= 1 && sizes[0] >= 1 && forall i :: 1 <= i < |sizes| ==> IsPow2(sizes[i]) && sizes[i - 1] < sizes[i]
  }

  lemma GrownMore(sizes: seq<int>, newsize: int)
    requires Grown(sizes) && IsPow2(newsize) && sizes[|sizes| - 1] < newsize
    ensures Grown(sizes + [newsize])
  {
  }

  /** The bytes copied by the growths: each copies the whole capacity it leaves behind. */
  function Copied(sizes: seq<int>): int {
    if |sizes| <= 1 then 0 else Copied(sizes[..|sizes| - 1]) + sizes[|sizes| - 2]
  }

  /** All copying costs less than the first and the last capacity together. */
  lemma {:induction false} GrowthSum(sizes: seq<int>)
    requires Grown(sizes)
    ensures Copied(sizes) < sizes[0] + sizes[|sizes| - 1]
  {
    var n := |sizes| - 1;
    if n >= 1 {
      GrowthSum(sizes[..n]);
      if n >= 2 { Pow2Doubles(sizes[n - 1], sizes[n]); }
    }
  }

  /** print_string_ptr into the buffer. */
  method PrintStringB(str: CString, p: PrintBuffer)
    requires p.Valid() && p.offset + |Quoted(str)| + 1 <= LIMIT
    modifies p, p.heap, p.buffer
    ensures p.Valid() && (p.buffer == old(p.buffer) || fresh(p.buffer)) && old(p.sizes) <= p.sizes
    ensures p.offset == old(p.offset) && p.Pending(old(p.Out()) + Quoted(str))
    ensures p.largest <= Max(old(p.largest), p.offset + |Quoted(str)| + 1)
  {
    var flag := NeedsEscaping(str);
    var len := |str|;
    if flag { len := LiteralSize(str); }
    var at := p.Ensure(len + 3);
    LiteralInto(p.buffer, at, str, flag);
  }

  /** print_number into the buffer. */
  method PrintNumberB(item: Node, p: PrintBuffer)
    requires item.valuedouble == item.valueint as real && INT_MIN <= item.valueint <= INT_MAX
    requires p.Valid() && p.offset + |PrintNumber(item.valuedouble)| + SLACK <= LIMIT
    modifies p, p.heap, p.buffer
    ensures p.Valid() && (p.buffer == old(p.buffer) || fresh(p.buffer)) && old(p.sizes) <= p.sizes
    ensures p.offset == old(p.offset) && p.Pending(old(p.Out()) + PrintNumber(item.valuedouble))
    ensures p.largest <= Max(old(p.largest), p.offset + |PrintNumber(item.valuedouble)| + SLACK)
  {
    IntLength(item.valueint);
    if item.valuedouble == 0.0 {
      p.Finish([0x30], 2);
    } else {
      p.Finish(PrintInt(item.valueint), 21);
    }
  }

  /**
   * print_value into the buffer: afterwards the text of the item stands behind what was there,
   * though its closing byte may not be counted yet.
   */
  method PrintValueB(item: Node, ghost ch: Shape, depth: nat, fmt: bool, p: PrintBuffer, ghost text: seq<byte>)
    requires Follows(ch, item.child) && Ready(item.Contents(), Snap(ch))
    requires text == PrintValue(ValueOf(item.Contents(), Snap(ch)), depth, fmt)
    requires p.Valid() && p.offset + |text| + SLACK <= LIMIT
    modifies p, p.heap, p.buffer
    ensures p.Valid() && (p.buffer == old(p.buffer) || fresh(p.buffer)) && old(p.sizes) <= p.sizes
    ensures old(p.offset) <= p.offset && p.Pending(old(p.Out()) + text)
    ensures p.largest <= Max(old(p.largest), old(p.offset) + |text| + SLACK)
    decreases ch, 3
  {
    hide PrintElems, PrintMembers, Quoted, PrintNumber, Follows;
    match item.kind
    case KNull => p.Finish(NULL_TEXT, 5);
    case KFalse => p.Finish(FALSE_TEXT, 6);
    case KTrue => p.Finish(TRUE_TEXT, 5);
    case KNumber => PrintNumberB(item, p);
    case KString => PrintStringB(item.valuestring.value, p);
    case KArray => PrintArrayB(item, ch, depth, fmt, p, text);
    case KObject => PrintObjectB(item, ch, depth, fmt, p, text);
  }

  // ----- arrays

  method PrintArrayB(item: Node, ghost ch: Shape, depth: nat, fmt: bool, p: PrintBuffer, ghost text: seq<byte>)
    requires Follows(ch, item.child) && ReadyItems(Snap(ch), false)
    requires text == PrintValue(Array(ItemsOf(Snap(ch))), depth, fmt)
    requires p.Valid() && p.offset + |text| + SLACK <= LIMIT
    modifies p, p.heap, p.buffer
    ensures p.Valid() && (p.buffer == old(p.buffer) || fresh(p.buffer)) && old(p.sizes) <= p.sizes
    ensures old(p.offset) <= p.offset && p.Pending(old(p.Out()) + text)
    ensures p.largest <= Max(old(p.largest), old(p.offset) + |text| + SLACK)
    decreases ch, 2
  {
    hide PrintElems, Follows, Snap, ItemsOf, ReadyItems, PrintBuffer.Valid;
    ShapeAllocated(ch);
    ghost var l := ItemsOf(Snap(ch));
    ghost var body := PrintElems(l, depth, fmt);
    var numentries := CountEntries(item.child, ch);
    if numentries == 0 {
      EmptyArrayText(depth, fmt);
      p.Finish([LBRACKET, RBRACKET], 3);
      return;
    }
    p.Emit([LBRACKET], false);
    PrintElemsB(item.child, ch, depth, fmt, p, body);
    p.Finish([RBRACKET], 2);
    Bracketed(old(p.Out()), [LBRACKET], body, [RBRACKET]);
  }

  lemma Bracketed(o: seq<byte>, a: seq<byte>, b: seq<byte>, c: seq<byte>)
    ensures o + a + b + c == o + (a + b + c)
  {
  }

  lemma AtEnd(rest: Shape, todo: Snapshot)
    requires Follows(rest, null) && Snap(rest) == todo
    ensures ItemsOf(todo) == Nil
  {
  }

  lemma NoElems(depth: nat, fmt: bool)
    ensures PrintElems(Nil, depth, fmt) == []
  {
  }

  lemma EmptyArrayText(depth: nat, fmt: bool)
    ensures PrintValue(Array(Nil), depth, fmt) == [LBRACKET, RBRACKET]
  {
  }

  /** The element loop: each turn starts with everything counted. */
  method PrintElemsB(first: Node?, ghost sh: Shape, depth: nat, fmt: bool, p: PrintBuffer, ghost text: seq<byte>)
    requires Follows(sh, first) && ReadyItems(Snap(sh), false)
    requires text == PrintElems(ItemsOf(Snap(sh)), depth, fmt)
    requires p.Valid() && p.offset + |text| + SLACK < LIMIT
    modifies p, p.heap, p.buffer
    ensures p.Valid() && (p.buffer == old(p.buffer) || fresh(p.buffer)) && old(p.sizes) <= p.sizes
    ensures p.Out() == old(p.Out()) + text
    ensures p.largest <= Max(old(p.largest), old(p.offset) + |text| + SLACK)
    decreases sh, 1
  {
    hide PrintElems, ReadyItems, ItemsOf, Follows, Snap, PrintBuffer.Valid;
    NoElems(depth, fmt);
    ShapeAllocated(sh);
    ghost var top := p.offset + |text| + SLACK;
    var child := first;
    ghost var rest, todo := sh, Snap(sh);
    while child != null
      invariant Follows(rest, child) && Snap(rest) == todo && (rest == sh || rest < sh)
      invariant ReadyItems(todo, false)
      invariant p.Valid() && (p.buffer == old(p.buffer) || fresh(p.buffer)) && old(p.sizes) <= p.sizes
      invariant p.Out() + PrintElems(ItemsOf(todo), depth, fmt) == old(p.Out()) + text
      invariant p.offset + |PrintElems(ItemsOf(todo), depth, fmt)| + SLACK == top
      invariant p.largest <= Max(old(p.largest), top)
      decreases rest
    {
      ShapeAllocated(rest);
      PrintElemB(child, rest, todo, depth, fmt, p);
      child, rest, todo := child.next, rest.next, todo.next;
    }
    AtEnd(rest, todo);
  }

  /** One turn: the element, its missing bytes counted, and the separator if another follows. */
  method PrintElemB(child: Node, ghost rest: Shape, ghost todo: Snapshot, depth: nat, fmt: bool, p: PrintBuffer)
    requires Follows(rest, child) && Snap(rest) == todo && ReadyItems(todo, false)
    requires p.Valid() && p.offset + |PrintElems(ItemsOf(todo), depth, fmt)| + SLACK < LIMIT
    modifies p, p.heap, p.buffer
    ensures rest.Branch? && todo.Snapshot? && Follows(rest.next, child.next) && Snap(rest.next) == todo.next
    ensures p.Valid() && (p.buffer == old(p.buffer) || fresh(p.buffer)) && old(p.sizes) <= p.sizes
    ensures p.Out() + PrintElems(ItemsOf(todo.next), depth, fmt) == old(p.Out()) + PrintElems(ItemsOf(todo), depth, fmt)
    ensures p.largest <= Max(old(p.largest), old(p.offset) + |PrintElems(ItemsOf(todo), depth, fmt)| + SLACK)
    ensures ReadyItems(todo.next, false)
    decreases rest, 0
  {
    hide PrintValue, PrintElems, ValueOf, Ready, PrintBuffer.Valid;
    ShapeAllocated(rest);
    ghost var t := PrintValue(ValueOf(todo.fields, todo.child), depth + 1, fmt);
    ghost var base := p.Out();
    ElemsUnfold(todo, depth, fmt);
    PrintCountedB(child, rest.child, depth + 1, fmt, p, t);
    assert Follows(rest, child) && Snap(rest) == todo;
    if child.next != null {
      p.Emit(if fmt then [COMMA, SPACE] else [COMMA], true);
      assert Follows(rest, child) && Snap(rest) == todo;
    }
    ElemRegroup(base, t, ElemSeparator(ItemsOf(todo.next).Nil?, fmt), PrintElems(ItemsOf(todo.next), depth, fmt));
  }

  /** `print_value` followed by `update`: the whole text of the item is counted. */
  method PrintCountedB(item: Node, ghost ch: Shape, depth: nat, fmt: bool, p: PrintBuffer, ghost text: seq<byte>)
    requires Follows(ch, item.child) && Ready(item.Contents(), Snap(ch))
    requires text == PrintValue(ValueOf(item.Contents(), Snap(ch)), depth, fmt)
    requires p.Valid() && p.offset + |text| + SLACK <= LIMIT
    modifies p, p.heap, p.buffer
    ensures p.Valid() && (p.buffer == old(p.buffer) || fresh(p.buffer)) && old(p.sizes) <= p.sizes
    ensures p.Out() == old(p.Out()) + text
    ensures p.largest <= Max(old(p.largest), old(p.offset) + |text| + SLACK)
    decreases ch, 4
  {
    hide PrintValue, ValueOf, Ready, Follows, Snap, PrintBuffer.Valid;
    ValueTextual(item.Contents(), Snap(ch));
    ValueNulFree(ValueOf(item.Contents(), Snap(ch)), depth, fmt);
    ghost var base := p.Out();
    PrintValueB(item, ch, depth, fmt, p, text);
    p.Update(base, text);
  }

  lemma ElemRegroup(o: seq<byte>, a: seq<byte>, b: seq<byte>, c: seq<byte>)
    ensures o + a + b + c == o + (a + b + c)
    ensures b == [] ==> o + a + c == o + (a + b + c)
  {
  }

  // ----- objects

  method PrintObjectB(item: Node, ghost ch: Shape, depth: nat, fmt: bool, p: PrintBuffer, ghost text: seq<byte>)
    requires Follows(ch, item.child) && ReadyItems(Snap(ch), true)
    requires text == PrintValue(Object(ItemsOf(Snap(ch))), depth, fmt)
    requires p.Valid() && p.offset + |text| + SLACK <= LIMIT
    modifies p, p.heap, p.buffer
    ensures p.Valid() && (p.buffer == old(p.buffer) || fresh(p.buffer)) && old(p.sizes) <= p.sizes
    ensures old(p.offset) <= p.offset && p.Pending(old(p.Out()) + text)
    ensures p.largest <= Max(old(p.largest), old(p.offset) + |text| + SLACK)
    decreases ch, 2
  {
    hide PrintMembers, Follows, Snap, ItemsOf, ReadyItems, Tabs, PrintBuffer.Valid;
    ShapeAllocated(ch);
    ghost var l := ItemsOf(Snap(ch));
    ghost var body := PrintMembers(l, depth + 1, fmt);
    var numentries := CountEntries(item.child, ch);
    if numentries == 0 {
      EmptyObjectSize(depth, fmt);
      p.Finish(OpenBrace(fmt) + Tabs(depth - 1, fmt) + [RBRACE], if fmt then depth + 4 else 3);
      return;
    }
    p.Emit(OpenBrace(fmt), true);
    PrintMembersB(item.child, ch, depth + 1, fmt, p, body);
    var close := Tabs(depth, fmt) + [RBRACE];
    p.Finish(close, |close| + 1);
    ObjectRegroup(old(p.Out()), OpenBrace(fmt), body, Tabs(depth, fmt), [RBRACE]);
  }

  lemma ObjectRegroup(o: seq<byte>, a: seq<byte>, b: seq<byte>, c: seq<byte>, d: seq<byte>)
    ensures o + a + b + (c + d) == o + (a + b + c + d)
  {
  }

  lemma EmptyObjectSize(depth: nat, fmt: bool)
    ensures var s := OpenBrace(fmt) + Tabs(depth - 1, fmt) + [RBRACE];
            PrintValue(Object(Nil), depth, fmt) == s &&
            |s| < (if fmt then depth + 4 else 3) <= |s| + SLACK
  {
  }

  method PrintMembersB(first: Node?, ghost sh: Shape, depth: nat, fmt: bool, p: PrintBuffer, ghost text: seq<byte>)
    requires Follows(sh, first) && ReadyItems(Snap(sh), true)
    requires text == PrintMembers(ItemsOf(Snap(sh)), depth, fmt)
    requires p.Valid() && p.offset + |text| + SLACK < LIMIT
    modifies p, p.heap, p.buffer
    ensures p.Valid() && (p.buffer == old(p.buffer) || fresh(p.buffer)) && old(p.sizes) <= p.sizes
    ensures p.Out() == old(p.Out()) + text
    ensures p.largest <= Max(old(p.largest), old(p.offset) + |text| + SLACK)
    decreases sh, 1
  {
    hide PrintMembers, ReadyItems, ItemsOf, Follows, Snap, PrintBuffer.Valid;
    NoMembers(depth, fmt);
    ShapeAllocated(sh);
    ghost var top := p.offset + |text| + SLACK;
    var child := first;
    ghost var rest, todo := sh, Snap(sh);
    while child != null
      invariant Follows(rest, child) && Snap(rest) == todo && (rest == sh || rest < sh)
      invariant ReadyItems(todo, true)
      invariant p.Valid() && (p.buffer == old(p.buffer) || fresh(p.buffer)) && old(p.sizes) <= p.sizes
      invariant p.Out() + PrintMembers(ItemsOf(todo), depth, fmt) == old(p.Out()) + text
      invariant p.offset + |PrintMembers(ItemsOf(todo), depth, fmt)| + SLACK == top
      invariant p.largest <= Max(old(p.largest), top)
      decreases rest
    {
      ShapeAllocated(rest);
      PrintMemberB(child, rest, todo, depth, fmt, p);
      child, rest, todo := child.next, rest.next, todo.next;
    }
    AtEnd(rest, todo);
  }

  lemma NoMembers(depth: nat, fmt: bool)
    ensures PrintMembers(Nil, depth, fmt) == []
  {
  }

  /** One turn: indentation, key, colon, value, and the end of the member. */
  method PrintMemberB(child: Node, ghost rest: Shape, ghost todo: Snapshot, depth: nat, fmt: bool, p: PrintBuffer)
    requires Follows(rest, child) && Snap(rest) == todo && ReadyItems(todo, true)
    requires p.Valid() && p.offset + |PrintMembers(ItemsOf(todo), depth, fmt)| + SLACK < LIMIT
    modifies p, p.heap, p.buffer
    ensures rest.Branch? && todo.Snapshot? && Follows(rest.next, child.next) && Snap(rest.next) == todo.next
    ensures p.Valid() && (p.buffer == old(p.buffer) || fresh(p.buffer)) && old(p.sizes) <= p.sizes
    ensures p.Out() + PrintMembers(ItemsOf(todo.next), depth, fmt)
         == old(p.Out()) + PrintMembers(ItemsOf(todo), depth, fmt)
    ensures p.largest <= Max(old(p.largest), old(p.offset) + |PrintMembers(ItemsOf(todo), depth, fmt)| + SLACK)
    ensures ReadyItems(todo.next, true)
    decreases rest, 0
  {
    hide PrintValue, PrintMembers, ValueOf, Ready, MemberHead, PrintBuffer.Valid;
    ShapeAllocated(rest);
    ghost var head := MemberHead(todo.fields.name, depth, fmt);
    ghost var t := PrintValue(ValueOf(todo.fields, todo.child), depth, fmt);
    ghost var base, tail := p.Out(), PrintMembers(ItemsOf(todo.next), depth, fmt);
    MembersUnfold(todo, depth, fmt);
    PrintHeadB(child.name.value, depth, fmt, p);
    assert Follows(rest, child) && Snap(rest) == todo;
    PrintCountedB(child, rest.child, depth, fmt, p, t);
    assert Follows(rest, child) && Snap(rest) == todo;
    var end := (if child.next != null then [COMMA] else []) + (if fmt then [LF] else []);
    p.Emit(end, true);
    assert Follows(rest, child) && Snap(rest) == todo;
    MemberRegroup(base, head, t, end, tail);
  }

  lemma MembersUnfold(todo: Snapshot, depth: nat, fmt: bool)
    requires todo.Snapshot?
    ensures PrintMembers(ItemsOf(todo), depth, fmt)
         == MemberHead(todo.fields.name, depth, fmt) + PrintValue(ValueOf(todo.fields, todo.child), depth, fmt)
          + MemberEnd(ItemsOf(todo.next).Nil?, fmt) + PrintMembers(ItemsOf(todo.next), depth, fmt)
  {
    hide PrintValue, ValueOf, MemberHead, MemberEnd;
  }

  lemma ElemsUnfold(todo: Snapshot, depth: nat, fmt: bool)
    requires todo.Snapshot?
    ensures PrintElems(ItemsOf(todo), depth, fmt)
         == PrintValue(ValueOf(todo.fields, todo.child), depth + 1, fmt)
          + ElemSeparator(ItemsOf(todo.next).Nil?, fmt) + PrintElems(ItemsOf(todo.next), depth, fmt)
  {
    hide PrintValue, ValueOf, ElemSeparator;
  }

  lemma MemberRegroup(o: seq<byte>, a: seq<byte>, b: seq<byte>, c: seq<byte>, d: seq<byte>)
    ensures o + a + b + c + d == o + (a + b + c + d)
  {
  }

  /** Indentation, key and colon. */
  method PrintHeadB(name: CString, depth: nat, fmt: bool, p: PrintBuffer)
    requires p.Valid() && p.offset + |MemberHead(Some(name), depth, fmt)| + 1 <= LIMIT
    modifies p, p.heap, p.buffer
    ensures p.Valid() && (p.buffer == old(p.buffer) || fresh(p.buffer)) && old(p.sizes) <= p.sizes
    ensures p.Out() == old(p.Out()) + MemberHead(Some(name), depth, fmt)
    ensures p.largest <= Max(old(p.largest), p.offset + 1)
  {
    hide Quoted;
    ghost var base := p.Out();
    var tabs := Tabs(depth, fmt);
    if tabs != [] { p.Emit(tabs, false); }
    assert p.Out() == base + tabs;
    PrintStringB(name, p);
    EscapedNulFree(name);
    p.Update(base + tabs, Quoted(name));
    p.Emit(Colon(fmt), false);
    Bracketed(base, tabs, Quoted(name), Colon(fmt));
  }

  /**
   * cJSON_PrintBuffered: the returned buffer holds the very text cJSON_Print or
   * cJSON_PrintUnformatted returns, for any first capacity.
   */
  method PrintBuffered(item: Node, ghost ch: Shape, prebuffer: int, fmt: bool, heap: TextHeap)
    returns (out: array<byte>, ghost p: PrintBuffer)
    requires Follows(ch, item.child) && Ready(item.Contents(), Snap(ch)) && prebuffer >= 1
    requires |PrintValue(ValueOf(item.Contents(), Snap(ch)), 0, fmt)| + SLACK <= LIMIT
    modifies heap
    ensures heap.live == old(heap.live) + {out} && out !in old(heap.live)
    ensures var text := PrintValue(ValueOf(item.Contents(), Snap(ch)), 0, fmt);
            fresh(out) && HoldsAt(out, 0, text) &&
            (out.Length == prebuffer || out.Length < 2 * (|text| + SLACK))
    ensures p.buffer == out && Grown(p.sizes) && p.sizes[0] == prebuffer && p.sizes[|p.sizes| - 1] == out.Length
    ensures Copied(p.sizes) < prebuffer + out.Length
  {
    hide PrintValue, ValueOf, Ready, Follows, Snap, Copied;
    ShapeAllocated(ch);
    ghost var text := PrintValue(ValueOf(item.Contents(), Snap(ch)), 0, fmt);
    var b := new PrintBuffer(prebuffer, heap);
    assert Follows(ch, item.child) && Ready(item.Contents(), Snap(ch));
    PrintValueB(item, ch, 0, fmt, b, text);
    assert [] + text == text;
    ValueTextual(item.Contents(), Snap(ch));
    ValueNulFree(ValueOf(item.Contents(), Snap(ch)), 0, fmt);
    GrowthSum(b.sizes);
    out, p := b.buffer, b;
  }
}
