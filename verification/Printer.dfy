/** The allocating printer: print_value and its helpers with no print buffer. */
module Printer {
  import opened Bytes
  import opened Json
  import opened StringLiteral
  import opened Numbers
  import opened Printing
  import opened Tree
  import opened CStrings
  import opened TextMemory

  // ----- lists of texts

  /** The texts of the elements of an array, each printed on its own. */
  function ElemTexts(l: Items, depth: nat, fmt: bool): seq<seq<byte>> {
    match l
    case Nil => []
    case Cons(_, v, rest) => [PrintValue(v, depth, fmt)] + ElemTexts(rest, depth, fmt)
  }

  function KeyTexts(l: Items): seq<seq<byte>> {
    match l
    case Nil => []
    case Cons(k, _, rest) => [Quoted(KeyText(k))] + KeyTexts(rest)
  }

  function JoinElems(ts: seq<seq<byte>>, fmt: bool): seq<byte> {
    if ts == [] then [] else ts[0] + ElemSeparator(|ts| == 1, fmt) + JoinElems(ts[1..], fmt)
  }

  function MemberText(name: seq<byte>, text: seq<byte>, last: bool, depth: nat, fmt: bool): seq<byte> {
    Tabs(depth, fmt) + name + Colon(fmt) + text + MemberEnd(last, fmt)
  }

  function JoinMembers(ns: seq<seq<byte>>, ts: seq<seq<byte>>, depth: nat, fmt: bool): seq<byte>
    requires |ns| == |ts|
  {
    if ts == [] then []
    else MemberText(ns[0], ts[0], |ts| == 1, depth, fmt) + JoinMembers(ns[1..], ts[1..], depth, fmt)
  }

  lemma {:induction false} JoinElemsIsPrint(l: Items, depth: nat, fmt: bool)
    ensures JoinElems(ElemTexts(l, depth + 1, fmt), fmt) == PrintElems(l, depth, fmt)
    ensures |ElemTexts(l, depth + 1, fmt)| == 0 <==> l.Nil?
  {
    hide PrintValue;
    if l.Cons? {
      JoinElemsIsPrint(l.rest, depth, fmt);
      assert ElemTexts(l, depth + 1, fmt)[1..] == ElemTexts(l.rest, depth + 1, fmt);
    }
  }

  lemma {:induction false} SameCount(l: Items, depth: nat, fmt: bool)
    ensures |ElemTexts(l, depth, fmt)| == |KeyTexts(l)| && (|KeyTexts(l)| == 0 <==> l.Nil?)
  {
    hide PrintValue, Quoted;
    if l.Cons? { SameCount(l.rest, depth, fmt); }
  }

  lemma {:induction false} JoinMembersIsPrint(l: Items, depth: nat, fmt: bool)
    ensures |ElemTexts(l, depth, fmt)| == |KeyTexts(l)|
    ensures JoinMembers(KeyTexts(l), ElemTexts(l, depth, fmt), depth, fmt) == PrintMembers(l, depth, fmt)
  {
    hide PrintValue, Quoted, Colon, Tabs, KeyText;
    SameCount(l, depth, fmt);
    if l.Cons? {
      JoinMembersIsPrint(l.rest, depth, fmt);
      SameCount(l.rest, depth, fmt);
      assert ElemTexts(l, depth, fmt)[1..] == ElemTexts(l.rest, depth, fmt);
      assert KeyTexts(l)[1..] == KeyTexts(l.rest);
    }
  }

  /** The sizing pass for an array: entry lengths plus two or three bytes each. */
  function ElemsSize(ts: seq<seq<byte>>, fmt: bool): nat {
    if ts == [] then 0 else |ts[0]| + 2 + (if fmt then 1 else 0) + ElemsSize(ts[1..], fmt)
  }

  function MembersSize(ns: seq<seq<byte>>, ts: seq<seq<byte>>, depth: nat, fmt: bool): nat
    requires |ns| == |ts|
  {
    if ts == [] then 0
    else |ts[0]| + |ns[0]| + 2 + (if fmt then 2 + depth else 0) + MembersSize(ns[1..], ts[1..], depth, fmt)
  }

  lemma {:induction false} ElemsSizeAppend(ts: seq<seq<byte>>, t: seq<byte>, fmt: bool)
    ensures ElemsSize(ts + [t], fmt) == ElemsSize(ts, fmt) + |t| + 2 + (if fmt then 1 else 0)
  {
    if ts == [] {
      assert ts + [t] == [t];
    } else {
      assert (ts + [t])[1..] == ts[1..] + [t];
      ElemsSizeAppend(ts[1..], t, fmt);
    }
  }

  lemma {:induction false} MembersSizeAppend(ns: seq<seq<byte>>, n: seq<byte>, ts: seq<seq<byte>>, t: seq<byte>,
                                             depth: nat, fmt: bool)
    requires |ns| == |ts|
    ensures MembersSize(ns + [n], ts + [t], depth, fmt)
         == MembersSize(ns, ts, depth, fmt) + |t| + |n| + 2 + (if fmt then 2 + depth else 0)
  {
    if ts == [] {
      assert ts + [t] == [t] && ns + [n] == [n];
    } else {
      assert (ts + [t])[1..] == ts[1..] + [t] && (ns + [n])[1..] == ns[1..] + [n];
      MembersSizeAppend(ns[1..], n, ts[1..], t, depth, fmt);
    }
  }

  /** Every array of the list holds its text. */
  ghost predicate Texts(entries: seq<array<byte>>, ts: seq<seq<byte>>)
    reads set e | e in entries
  {
    |entries| == |ts| && forall i :: 0 <= i < |ts| ==> HoldsAt(entries[i], 0, ts[i])
  }

  lemma TextsAppend(entries: seq<array<byte>>, ts: seq<seq<byte>>, e: array<byte>, t: seq<byte>)
    requires Texts(entries, ts) && HoldsAt(e, 0, t)
    ensures Texts(entries + [e], ts + [t])
  {
  }

  // ----- scalars

  /** cJSON_strdup of a keyword. */
  method Strdup(s: CString, heap: TextHeap) returns (out: array<byte>)
    modifies heap
    ensures heap.live == old(heap.live) + {out} && out !in old(heap.live)
    ensures fresh(out) && out.Length == |s| + 1 && HoldsAt(out, 0, s)
  {
    out := Malloc(|s| + 1, heap);
    var e := Store(out, 0, s);
    out[e] := 0;
  }

  /** print_number: two bytes for zero, 21 for any other C int. */
  method PrintNumberItem(item: Node, heap: TextHeap) returns (out: array<byte>)
    requires item.valuedouble == item.valueint as real && INT_MIN <= item.valueint <= INT_MAX
    modifies heap
    ensures heap.live == old(heap.live) + {out} && out !in old(heap.live)
    ensures fresh(out) && HoldsAt(out, 0, PrintNumber(item.valuedouble))
  {
    IntLength(item.valueint);
    var text := PrintInt(item.valueint);
    if item.valuedouble == 0.0 {
      out := Malloc(2, heap);
    } else {
      out := Malloc(21, heap);
    }
    var e := Store(out, 0, text);
    out[e] := 0;
  }

  /** print_string_ptr: the allocated size is exact. */
  method PrintStringPtr(str: CString, heap: TextHeap) returns (out: array<byte>)
    modifies heap
    ensures heap.live == old(heap.live) + {out} && out !in old(heap.live)
    ensures fresh(out) && out.Length == |Quoted(str)| + 1 && HoldsAt(out, 0, Quoted(str))
  {
    EscapedNulFree(str);
    var flag := NeedsEscaping(str);
    var len := |str|;
    if flag { len := LiteralSize(str); }
    out := Malloc(len + 3, heap);
    LiteralInto(out, 0, str, flag);
  }

  // ----- composing

  /** The composing loop of print_array. */
  method ComposeElems(out: array<byte>, at: nat, entries: seq<array<byte>>, fmt: bool, ghost ts: seq<seq<byte>>,
                      heap: TextHeap, ghost before: set<array<byte>>)
    returns (end: nat)
    requires Texts(entries, ts) && out !in entries && at + ElemsSize(ts, fmt) < out.Length
    requires Holding(heap.live, before, entries)
    modifies out, heap
    ensures heap.live == before
    ensures end <= at + ElemsSize(ts, fmt) && out[..end] == old(out[..at]) + JoinElems(ts, fmt)
  {
    hide JoinElems, ElemsSize, Holding;
    end := at;
    var i := 0;
    assert ts[0..] == ts && entries[0..] == entries;
    JoinElemsDone(fmt);
    while i < |entries|
      invariant 0 <= i <= |ts| && end + ElemsSize(ts[i..], fmt) <= at + ElemsSize(ts, fmt)
      invariant out[..end] + JoinElems(ts[i..], fmt) == old(out[..at]) + JoinElems(ts, fmt)
      invariant Texts(entries, ts) && Holding(heap.live, before, entries[i..])
    {
      hide HoldsAt, ElemSeparator;
      ghost var done := out[..end];
      JoinElemsStep(ts, i, fmt);
      end := ComposeElem(out, end, entries[i], i == |entries| - 1, fmt, ts[i]);
      Regroup3(done, ts[i], ElemSeparator(i == |entries| - 1, fmt), JoinElems(ts[i + 1..], fmt));
      FreeFirst(entries, i, heap, before);
      i := i + 1;
    }
    assert entries[i..] == [] && ts[i..] == [];
    HoldingNone(before);
  }

  /** One turn of that loop, but for the freeing. */
  method ComposeElem(out: array<byte>, at: nat, entry: array<byte>, last: bool, fmt: bool, ghost t: seq<byte>)
    returns (end: nat)
    requires at + |t| + |ElemSeparator(last, fmt)| < out.Length && entry != out && HoldsAt(entry, 0, t)
    modifies out
    ensures end == at + |t| + |ElemSeparator(last, fmt)|
    ensures out[..end] == old(out[..at]) + t + ElemSeparator(last, fmt)
  {
    var tmplen := Strlen(entry, 0, t);
    end := Memcpy(out, at, entry, tmplen);
    if !last {
      end := StoreText(out, end, if fmt then [COMMA, SPACE] else [COMMA]);
    }
  }

  lemma JoinElemsStep(ts: seq<seq<byte>>, i: nat, fmt: bool)
    requires i < |ts|
    ensures var sep := ElemSeparator(i == |ts| - 1, fmt);
            JoinElems(ts[i..], fmt) == ts[i] + sep + JoinElems(ts[i + 1..], fmt) &&
            ElemsSize(ts[i..], fmt) >= |ts[i]| + |sep| + ElemsSize(ts[i + 1..], fmt)
  {
    assert ts[i..][1..] == ts[i + 1..];
  }

  lemma JoinElemsDone(fmt: bool)
    ensures JoinElems([], fmt) == [] && ElemsSize([], fmt) == 0
  {
  }

  /** `cJSON_free(entries[i])` */
  ghost method FreeFirst(entries: seq<array<byte>>, i: nat, heap: TextHeap, before: set<array<byte>>)
    requires i < |entries| && Holding(heap.live, before, entries[i..])
    modifies heap
    ensures Holding(heap.live, before, entries[i + 1..])
  {
    hide Holding;
    assert entries[i..][0] == entries[i] && entries[i..][1..] == entries[i + 1..];
    HoldingLess(heap.live, before, entries[i..]);
    heap.Free(entries[i]);
  }

  lemma Regroup3(a: seq<byte>, b: seq<byte>, c: seq<byte>, d: seq<byte>)
    ensures (a + b + c) + d == a + (b + c + d)
  {
  }

  /** The composing loop of print_object; `depth` is the depth of the members. */
  method ComposeMembers(out: array<byte>, at: nat, names: seq<array<byte>>, entries: seq<array<byte>>, depth: nat,
                        fmt: bool, ghost ns: seq<seq<byte>>, ghost ts: seq<seq<byte>>,
                        heap: TextHeap, ghost before: set<array<byte>>)
    returns (end: nat)
    requires Texts(entries, ts) && out !in entries && Texts(names, ns) && out !in names
    requires |ns| == |ts| && at + MembersSize(ns, ts, depth, fmt) < out.Length
    requires Holding(heap.live, before, Zip(names, entries))
    modifies out, heap
    ensures heap.live == before
    ensures end <= at + MembersSize(ns, ts, depth, fmt)
    ensures out[..end] == old(out[..at]) + JoinMembers(ns, ts, depth, fmt)
  {
    hide JoinMembers, MembersSize, Holding;
    end := at;
    var i := 0;
    assert ts[0..] == ts && ns[0..] == ns && names[0..] == names && entries[0..] == entries;
    JoinMembersDone(depth, fmt);
    while i < |entries|
      invariant 0 <= i <= |ts|
      invariant end + MembersSize(ns[i..], ts[i..], depth, fmt) <= at + MembersSize(ns, ts, depth, fmt)
      invariant out[..end] + JoinMembers(ns[i..], ts[i..], depth, fmt)
                == old(out[..at]) + JoinMembers(ns, ts, depth, fmt)
      invariant Texts(entries, ts) && Texts(names, ns) && Holding(heap.live, before, Zip(names[i..], entries[i..]))
    {
      hide Zip, MemberText, HoldsAt;
      ghost var done := out[..end];
      JoinMembersStep(ns, ts, i, depth, fmt);
      ghost var rest := JoinMembers(ns[i + 1..], ts[i + 1..], depth, fmt);
      end := ComposeMember(out, end, names[i], entries[i], i == |entries| - 1, depth, fmt, ns[i], ts[i]);
      ghost var m := MemberText(ns[i], ts[i], i == |entries| - 1, depth, fmt);
      assert (done + m) + rest == done + (m + rest);
      FreePair(names, entries, i, heap, before);
      i := i + 1;
    }
    assert names[i..] == [];
    HoldingNone(before);
    assert ts[i..] == [] && ns[i..] == [];
  }

  /** The texts of members in the order in which they are made and freed. */
  function Zip(names: seq<array<byte>>, entries: seq<array<byte>>): seq<array<byte>> {
    if names == [] || entries == [] then [] else [names[0], entries[0]] + Zip(names[1..], entries[1..])
  }

  lemma {:induction false} ZipMore(names: seq<array<byte>>, entries: seq<array<byte>>, n: array<byte>, e: array<byte>)
    requires |names| == |entries|
    ensures Zip(names + [n], entries + [e]) == Zip(names, entries) + [n] + [e]
  {
    if names == [] {
      assert names + [n] == [n] && entries + [e] == [e];
      assert [n][1..] == [];
    } else {
      assert (names + [n])[1..] == names[1..] + [n] && (entries + [e])[1..] == entries[1..] + [e];
      ZipMore(names[1..], entries[1..], n, e);
    }
  }

  /** `cJSON_free(names[i]); cJSON_free(entries[i]);` */
  ghost method FreePair(names: seq<array<byte>>, entries: seq<array<byte>>, i: nat, heap: TextHeap,
                        before: set<array<byte>>)
    requires i < |names| == |entries| && Holding(heap.live, before, Zip(names[i..], entries[i..]))
    modifies heap
    ensures Holding(heap.live, before, Zip(names[i + 1..], entries[i + 1..]))
  {
    hide Holding;
    assert names[i..][1..] == names[i + 1..] && entries[i..][1..] == entries[i + 1..];
    var temps, rest := Zip(names[i..], entries[i..]), Zip(names[i + 1..], entries[i + 1..]);
    assert temps == [names[i], entries[i]] + rest;
    HoldingLess(heap.live, before, temps);
    heap.Free(names[i]);
    assert temps[1..] == [entries[i]] + rest;
    HoldingLess(heap.live, before, temps[1..]);
    heap.Free(entries[i]);
    assert temps[1..][1..] == rest;
  }

  lemma JoinMembersStep(ns: seq<seq<byte>>, ts: seq<seq<byte>>, i: nat, depth: nat, fmt: bool)
    requires |ns| == |ts| && i < |ts|
    ensures JoinMembers(ns[i..], ts[i..], depth, fmt)
         == MemberText(ns[i], ts[i], i == |ts| - 1, depth, fmt) + JoinMembers(ns[i + 1..], ts[i + 1..], depth, fmt)
    ensures MembersSize(ns[i..], ts[i..], depth, fmt)
         == |ts[i]| + |ns[i]| + 2 + (if fmt then 2 + depth else 0) + MembersSize(ns[i + 1..], ts[i + 1..], depth, fmt)
  {
    hide MemberText;
    assert ts[i..][1..] == ts[i + 1..] && ns[i..][1..] == ns[i + 1..];
  }

  lemma JoinMembersDone(depth: nat, fmt: bool)
    ensures JoinMembers([], [], depth, fmt) == [] && MembersSize([], [], depth, fmt) == 0
  {
  }

  /** One turn of that loop. */
  method ComposeMember(out: array<byte>, at: nat, name: array<byte>, entry: array<byte>, last: bool, depth: nat,
                       fmt: bool,
                       ghost n: seq<byte>, ghost t: seq<byte>)
    returns (end: nat)
    requires at + |t| + |n| + 2 + (if fmt then 2 + depth else 0) < out.Length
    requires entry != out && HoldsAt(entry, 0, t) && name != out && HoldsAt(name, 0, n)
    modifies out
    ensures end <= at + |t| + |n| + 2 + (if fmt then 2 + depth else 0)
    ensures out[..end] == old(out[..at]) + MemberText(n, t, last, depth, fmt)
  {
    var tabs, colon := Tabs(depth, fmt), Colon(fmt);
    var tail := MemberEnd(last, fmt);
    assert |tabs| == (if fmt then depth else 0) && |colon| == (if fmt then 2 else 1);
    assert |tail| == (if last then 0 else 1) + (if fmt then 1 else 0);
    hide Tabs, Colon;
    end := Store(out, at, tabs);
    var tmplen := Strlen(name, 0, n);
    end := Memcpy(out, end, name, tmplen);
    end := Store(out, end, colon);
    tmplen := Strlen(entry, 0, t);
    end := Strcpy(out, end, entry, tmplen);
    end := StoreText(out, end, tail);
    Regroup5(old(out[..at]), tabs, n, colon, t, tail);
  }

  lemma Regroup5(o: seq<byte>, a: seq<byte>, b: seq<byte>, c: seq<byte>, d: seq<byte>, e: seq<byte>)
    ensures o + a + b + c + d + e == o + (a + b + c + d + e)
  {
  }

  // ----- items

  /** print_value with no buffer: a fresh C string holding the text of the item. */
  method PrintValueItem(item: Node, ghost ch: Shape, depth: nat, fmt: bool, heap: TextHeap) returns (out: array<byte>)
    requires Follows(ch, item.child) && Ready(item.Contents(), Snap(ch))
    modifies heap
    ensures heap.live == old(heap.live) + {out} && out !in old(heap.live)
    ensures fresh(out) && HoldsAt(out, 0, PrintValue(ValueOf(item.Contents(), Snap(ch)), depth, fmt))
    decreases ch, 2
  {
    hide PrintElems, PrintMembers, Quoted, PrintNumber;
    match item.kind
    case KNull => out := Strdup(NULL_TEXT, heap);
    case KFalse => out := Strdup(FALSE_TEXT, heap);
    case KTrue => out := Strdup(TRUE_TEXT, heap);
    case KNumber => out := PrintNumberItem(item, heap);
    case KString => out := PrintStringPtr(item.valuestring.value, heap);
    case KArray => out := PrintArrayItem(item, ch, depth, fmt, heap);
    case KObject => out := PrintObjectItem(item, ch, depth, fmt, heap);
  }

  method PrintArrayItem(item: Node, ghost ch: Shape, depth: nat, fmt: bool, heap: TextHeap) returns (out: array<byte>)
    requires Follows(ch, item.child) && ReadyItems(Snap(ch), false)
    modifies heap
    ensures heap.live == old(heap.live) + {out} && out !in old(heap.live)
    ensures fresh(out) && HoldsAt(out, 0, PrintValue(Array(ItemsOf(Snap(ch))), depth, fmt))
    decreases ch, 1
  {
    hide PrintElems, ElemTexts, JoinElems, ElemsSize, Texts, ReadyItems, ItemsOf, Follows, Snap;
    hide Holding;
    ShapeAllocated(ch);
    ghost var l := ItemsOf(Snap(ch));
    ItemsTextual(Snap(ch));
    ValueNulFree(Array(l), depth, fmt);
    var numentries := CountEntries(item.child, ch);
    if numentries == 0 {
      out := PrintEmptyArray(depth, fmt, heap);
      return;
    }
    var entries, len; ghost var ts;
    ghost var before := heap.live;
    entries, len, ts := PrintChildren(item.child, ch, depth + 1, fmt, heap);
    ghost var held := heap.live;
    out := Malloc(len, heap);
    HoldingUnder(held, before, entries, out);
    NotHeld(held, before, entries, out);
    var ptr := StoreText(out, 0, [LBRACKET]);
    ptr := ComposeElems(out, ptr, entries, fmt, ts, heap, before + {out});
    ptr := Store(out, ptr, [RBRACKET]);
    out[ptr] := 0;
    JoinElemsIsPrint(l, depth, fmt);
    assert out[..ptr] == [LBRACKET] + PrintElems(l, depth, fmt) + [RBRACKET];
  }

  lemma NotHeld(live: set<array<byte>>, before: set<array<byte>>, temps: seq<array<byte>>, out: array<byte>)
    requires Holding(live, before, temps) && out !in live
    ensures out !in temps && out !in before
  {
    assert forall i :: 0 <= i < |temps| ==> temps[i] in live;
  }

  /** The loop of print_array that prints every element and adds up the size. */
  method PrintChildren(first: Node?, ghost sh: Shape, depth: nat, fmt: bool, heap: TextHeap)
    returns (entries: seq<array<byte>>, len: nat, ghost ts: seq<seq<byte>>)
    requires Follows(sh, first) && ReadyItems(Snap(sh), false)
    modifies heap
    ensures Holding(heap.live, old(heap.live), entries)
    ensures ts == ElemTexts(ItemsOf(Snap(sh)), depth, fmt) && Texts(entries, ts) && len == 5 + ElemsSize(ts, fmt)
    decreases sh, 0
  {
    hide PrintValue, ElemsSize, ValueOf, Ready, Texts, HoldsAt, Holding, Follows, Snap, Nodes, ReadyItems, ItemsOf;
    entries, len, ts := [], 5, [];
    HoldingNone(heap.live);
    ShapeAllocated(sh);
    EmptySize(fmt);
    var child := first;
    ghost var rest, todo := sh, Snap(sh);
    while child != null
      invariant Follows(rest, child) && Snap(rest) == todo && (rest == sh || rest < sh)
      invariant ReadyItems(todo, false)
      invariant ts + ElemTexts(ItemsOf(todo), depth, fmt) == ElemTexts(ItemsOf(Snap(sh)), depth, fmt)
      invariant Texts(entries, ts) && len == 5 + ElemsSize(ts, fmt)
      invariant Holding(heap.live, old(heap.live), entries)
      decreases rest
    {
      ShapeAllocated(rest);
      FollowsStep(rest, child);
      ReadyStep(todo, false);
      ghost var t := PrintValue(ValueOf(todo.fields, todo.child), depth, fmt);
      ghost var held := heap.live;
      var ret := PrintValueItem(child, rest.child, depth, fmt, heap);
      HoldingMore(held, old(heap.live), entries, ret);
      assert Follows(rest, child) && Snap(rest) == todo;
      FollowsStep(rest, child);
      var n := Strlen(ret, 0, t);
      ElemsSizeAppend(ts, t, fmt);
      TextsAppend(entries, ts, ret, t);
      AppendFirst(ts, t, ElemTexts(ItemsOf(todo.next), depth, fmt));
      entries, ts := entries + [ret], ts + [t];
      len := len + n + 2 + (if fmt then 1 else 0);
      child, rest, todo := child.next, rest.next, todo.next;
    }
    FollowsEnd(rest);
    NoItems();
  }

  lemma NoItems()
    ensures ItemsOf(End) == Nil
  {
  }

  lemma EmptySize(fmt: bool)
    ensures ElemsSize([], fmt) == 0 && Texts([], [])
  {
  }

  method PrintObjectItem(item: Node, ghost ch: Shape, depth: nat, fmt: bool, heap: TextHeap) returns (out: array<byte>)
    requires Follows(ch, item.child) && ReadyItems(Snap(ch), true)
    modifies heap
    ensures heap.live == old(heap.live) + {out} && out !in old(heap.live)
    ensures fresh(out) && HoldsAt(out, 0, PrintValue(Object(ItemsOf(Snap(ch))), depth, fmt))
    decreases ch, 1
  {
    hide PrintMembers, ElemTexts, KeyTexts, JoinMembers, MembersSize, Texts, ReadyItems, ItemsOf, Follows, Snap;
    hide Holding, Zip;
    ShapeAllocated(ch);
    ghost var l := ItemsOf(Snap(ch));
    ItemsTextual(Snap(ch));
    ValueNulFree(Object(l), depth, fmt);
    var numentries := CountEntries(item.child, ch);
    if numentries == 0 {
      out := PrintEmptyObject(depth, fmt, heap);
      return;
    }
    var names, entries, len; ghost var ns, ts;
    ghost var before := heap.live;
    names, entries, len, ns, ts := PrintNamedChildren(item.child, ch, depth + 1, fmt, heap);
    ghost var held := heap.live;
    out := Malloc(len, heap);
    HoldingUnder(held, before, Zip(names, entries), out);
    NotHeld(held, before, Zip(names, entries), out);
    NotZipped(names, entries, out);
    ComposeObject(out, names, entries, depth, fmt, ns, ts, heap, before + {out});
    JoinMembersIsPrint(l, depth + 1, fmt);
  }

  lemma {:induction false} NotZipped(names: seq<array<byte>>, entries: seq<array<byte>>, out: array<byte>)
    requires |names| == |entries| && out !in Zip(names, entries)
    ensures out !in names && out !in entries
  {
    if names != [] {
      assert Zip(names, entries)[0] == names[0] && Zip(names, entries)[1] == entries[0];
      assert forall x :: x in Zip(names[1..], entries[1..]) ==> x in Zip(names, entries);
      NotZipped(names[1..], entries[1..], out);
    }
  }

  /** The composing part of print_object. */
  method ComposeObject(out: array<byte>, names: seq<array<byte>>, entries: seq<array<byte>>, depth: nat, fmt: bool,
                       ghost ns: seq<seq<byte>>, ghost ts: seq<seq<byte>>, heap: TextHeap,
                       ghost before: set<array<byte>>)
    requires Texts(entries, ts) && out !in entries && Texts(names, ns) && out !in names && |ns| == |ts|
    requires out.Length == 7 + (if fmt then depth + 1 else 0) + MembersSize(ns, ts, depth + 1, fmt)
    requires Holding(heap.live, before, Zip(names, entries))
    modifies out, heap
    ensures heap.live == before
    ensures var s := OpenBrace(fmt) + JoinMembers(ns, ts, depth + 1, fmt) + Tabs(depth, fmt) + [RBRACE];
            |s| < out.Length && out[..|s|] == s && out[|s|] == 0
  {
    hide Texts, JoinMembers, MembersSize, Holding, Zip;
    var ptr := StoreText(out, 0, OpenBrace(fmt));
    assert out[..ptr] == OpenBrace(fmt);
    ptr := ComposeMembers(out, ptr, names, entries, depth + 1, fmt, ns, ts, heap, before);
    ptr := Store(out, ptr, Tabs(depth, fmt));
    ptr := Store(out, ptr, [RBRACE]);
    out[ptr] := 0;
  }

  method PrintEmptyArray(depth: nat, fmt: bool, heap: TextHeap) returns (out: array<byte>)
    modifies heap
    ensures heap.live == old(heap.live) + {out} && out !in old(heap.live)
    ensures fresh(out) && HoldsAt(out, 0, PrintValue(Array(Nil), depth, fmt))
  {
    assert PrintValue(Array(Nil), depth, fmt) == [LBRACKET, RBRACKET];
    out := Strdup([LBRACKET, RBRACKET], heap);
  }

  /** print_object on an object without members: depth + 4 or 3 bytes are reserved. */
  method PrintEmptyObject(depth: nat, fmt: bool, heap: TextHeap) returns (out: array<byte>)
    modifies heap
    ensures heap.live == old(heap.live) + {out} && out !in old(heap.live)
    ensures fresh(out) && HoldsAt(out, 0, PrintValue(Object(Nil), depth, fmt))
  {
    out := Malloc(if fmt then depth + 4 else 3, heap);
    var ptr := Store(out, 0, OpenBrace(fmt));
    ptr := Store(out, ptr, Tabs(depth - 1, fmt));
    ptr := Store(out, ptr, [RBRACE]);
    out[ptr] := 0;
    assert out[..ptr] == PrintValue(Object(Nil), depth, fmt);
    ValueNulFree(Object(Nil), depth, fmt);
  }

  /** The loop of print_object that prints every name and value and adds up the size. */
  method PrintNamedChildren(first: Node?, ghost sh: Shape, depth: nat, fmt: bool, heap: TextHeap)
    returns (names: seq<array<byte>>, entries: seq<array<byte>>, len: nat, ghost ns: seq<seq<byte>>,
             ghost ts: seq<seq<byte>>)
    requires Follows(sh, first) && ReadyItems(Snap(sh), true)
    modifies heap
    ensures |names| == |entries| && Holding(heap.live, old(heap.live), Zip(names, entries))
    ensures ts == ElemTexts(ItemsOf(Snap(sh)), depth, fmt) && ns == KeyTexts(ItemsOf(Snap(sh)))
    ensures Texts(entries, ts) && Texts(names, ns) && |ns| == |ts|
    ensures len == 7 + (if fmt then depth else 0) + MembersSize(ns, ts, depth, fmt)
    decreases sh, 0
  {
    hide PrintValue, MembersSize, ValueOf, Ready, Quoted, Texts, HoldsAt, Holding;
    hide Follows, Snap, Nodes, ReadyItems, ItemsOf;
    ShapeAllocated(sh);
    names, entries, len, ns, ts := [], [], 7, [], [];
    HoldingNone(heap.live);
    if fmt { len := len + depth; }
    EmptyMembersSize(depth, fmt);
    var child := first;
    ghost var rest, todo := sh, Snap(sh);
    while child != null
      invariant Follows(rest, child) && Snap(rest) == todo && (rest == sh || rest < sh)
      invariant ReadyItems(todo, true)
      invariant ts + ElemTexts(ItemsOf(todo), depth, fmt) == ElemTexts(ItemsOf(Snap(sh)), depth, fmt)
      invariant ns + KeyTexts(ItemsOf(todo)) == KeyTexts(ItemsOf(Snap(sh)))
      invariant Texts(entries, ts) && Texts(names, ns) && |ns| == |ts|
      invariant len == 7 + (if fmt then depth else 0) + MembersSize(ns, ts, depth, fmt)
      invariant |names| == |entries| && Holding(heap.live, old(heap.live), Zip(names, entries))
      decreases rest
    {
      ShapeAllocated(rest);
      FollowsStep(rest, child);
      ReadyStep(todo, true);
      ghost var n, t := Quoted(KeyText(todo.fields.name)), PrintValue(ValueOf(todo.fields, todo.child), depth, fmt);
      ghost var held, temps := heap.live, Zip(names, entries);
      var str, ret, size := PrintNamed(child, rest.child, depth, fmt, heap);
      HoldingMore(held, old(heap.live), temps, str);
      HoldingMore(held + {str}, old(heap.live), temps + [str], ret);
      ZipMore(names, entries, str, ret);
      assert Follows(rest, child) && Snap(rest) == todo;
      FollowsStep(rest, child);
      MembersSizeAppend(ns, n, ts, t, depth, fmt);
      TextsAppend(entries, ts, ret, t);
      TextsAppend(names, ns, str, n);
      AppendFirst(ts, t, ElemTexts(ItemsOf(todo.next), depth, fmt));
      AppendFirst(ns, n, KeyTexts(ItemsOf(todo.next)));
      names, entries, ns, ts := names + [str], entries + [ret], ns + [n], ts + [t];
      len := len + size;
      child, rest, todo := child.next, rest.next, todo.next;
    }
    FollowsEnd(rest);
    NoItems();
  }

  /** One turn of that loop: both texts and the size reserved for them. */
  method PrintNamed(child: Node, ghost ch: Shape, depth: nat, fmt: bool, heap: TextHeap)
    returns (str: array<byte>, ret: array<byte>, size: nat)
    requires Follows(ch, child.child) && Ready(child.Contents(), Snap(ch)) && child.name.Some?
    modifies heap
    ensures fresh(str) && fresh(ret) && str !in old(heap.live) && ret !in old(heap.live) + {str}
    ensures heap.live == old(heap.live) + {str} + {ret}
    ensures HoldsAt(str, 0, Quoted(KeyText(child.name)))
    ensures HoldsAt(ret, 0, PrintValue(ValueOf(child.Contents(), Snap(ch)), depth, fmt))
    ensures size == |PrintValue(ValueOf(child.Contents(), Snap(ch)), depth, fmt)| + |Quoted(KeyText(child.name))|
                  + 2 + (if fmt then 2 + depth else 0)
    decreases ch, 3
  {
    hide PrintValue, ValueOf, Ready, Quoted;
    ShapeAllocated(ch);
    str := PrintStringPtr(child.name.value, heap);
    assert Follows(ch, child.child) && Ready(child.Contents(), Snap(ch));
    ret := PrintValueItem(child, ch, depth, fmt, heap);
    var n := Strlen(ret, 0, PrintValue(ValueOf(child.Contents(), Snap(ch)), depth, fmt));
    var m := Strlen(str, 0, Quoted(KeyText(child.name)));
    size := n + m + 2 + (if fmt then 2 + depth else 0);
  }

  lemma EmptyMembersSize(depth: nat, fmt: bool)
    ensures MembersSize([], [], depth, fmt) == 0 && Texts([], [])
  {
  }

  lemma AppendFirst(ts: seq<seq<byte>>, t: seq<byte>, rest: seq<seq<byte>>)
    ensures ts + ([t] + rest) == ts + [t] + rest
  {
  }
}
