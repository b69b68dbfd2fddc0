/** cJSON_Minify of what cJSON_Print writes is what cJSON_PrintUnformatted writes. */
module MinifyPrinted {
  import opened Bytes
  import opened Json
  import opened StringLiteral
  import opened Printing
  import opened Minify
  import opened MinifyMeaning

  /** Minifying `a` in front of any text leaves `b`, and closes no more and no less. */
  ghost predicate Leaves(a: seq<byte>, b: seq<byte>) {
    forall k :: Minified(a + k) == b + Minified(k) && Closed(a + k) == Closed(k)
  }

  lemma LeavesAt(a: seq<byte>, b: seq<byte>, k: seq<byte>)
    requires Leaves(a, b)
    ensures Minified(a + k) == b + Minified(k) && Closed(a + k) == Closed(k)
  {
  }

  lemma LeavesConcat(a: seq<byte>, b: seq<byte>, c: seq<byte>, d: seq<byte>)
    requires Leaves(a, b) && Leaves(c, d)
    ensures Leaves(a + c, b + d)
  {
    hide Minified, Closed;
    forall k ensures Minified(a + c + k) == b + d + Minified(k) && Closed(a + c + k) == Closed(k) {
      assert a + c + k == a + (c + k);
      LeavesAt(a, b, c + k);
      LeavesAt(c, d, k);
      assert b + (d + Minified(k)) == b + d + Minified(k);
    }
  }

  lemma LeavesCopied(p: seq<byte>)
    requires forall i :: 0 <= i < |p| ==> Copied(p[i])
    ensures Leaves(p, p)
  {
    hide Minified, Closed;
    forall k ensures Minified(p + k) == p + Minified(k) && Closed(p + k) == Closed(k) { CopyRun(p, k); }
  }

  lemma LeavesBlank(w: seq<byte>)
    requires forall i :: 0 <= i < |w| ==> Blank(w[i])
    ensures Leaves(w, [])
  {
    hide Minified, Closed;
    forall k ensures Minified(w + k) == [] + Minified(k) && Closed(w + k) == Closed(k) {
      BlankRun(w, k);
      assert [] + Minified(k) == Minified(k);
    }
  }

  /** Inside a literal an escaped byte is copied as it stands. */
  lemma EscapeByteKept(b: byte, k: seq<byte>)
    ensures MinifiedString(EscapeByte(b) + k) == EscapeByte(b) + MinifiedString(k)
    ensures ClosedString(EscapeByte(b) + k) == ClosedString(k)
  {
    hide Minified, Closed;
    var e := EscapeByte(b);
    var s := e + k;
    if |e| == 1 {
      assert s[1..] == k;
    } else if |e| == 2 {
      assert s[2..] == k && s[..2] == e;
    } else {
      var r := e[2..] + k;
      assert s[2..] == r && s[..2] == e[..2];
      PlainKept(e[2..], k);
      assert e[..2] + (e[2..] + MinifiedString(k)) == e + MinifiedString(k);
    }
  }

  lemma {:induction false} PlainKept(p: seq<byte>, k: seq<byte>)
    requires forall i :: 0 <= i < |p| ==> p[i] != QUOTE && p[i] != BACKSLASH
    ensures MinifiedString(p + k) == p + MinifiedString(k) && ClosedString(p + k) == ClosedString(k)
  {
    hide Minified, Closed;
    if p == [] {
      assert p + k == k;
    } else {
      assert (p + k)[1..] == p[1..] + k;
      PlainKept(p[1..], k);
    }
  }

  lemma {:induction false} EscapedKept(s: seq<byte>, k: seq<byte>)
    ensures MinifiedString(EscapeBody(s) + k) == EscapeBody(s) + MinifiedString(k)
    ensures ClosedString(EscapeBody(s) + k) == ClosedString(k)
  {
    hide MinifiedString, ClosedString, EscapeByte;
    if s == [] {
      assert [] + k == k && [] + MinifiedString(k) == MinifiedString(k);
    } else {
      var e, t := EscapeByte(s[0]), EscapeBody(s[1..]);
      assert EscapeBody(s) + k == e + (t + k);
      EscapeByteKept(s[0], t + k);
      EscapedKept(s[1..], k);
      assert e + (t + MinifiedString(k)) == e + t + MinifiedString(k);
    }
  }

  lemma LeavesQuoted(s: seq<byte>)
    ensures Leaves(Quoted(s), Quoted(s))
  {
    forall k ensures Minified(Quoted(s) + k) == Quoted(s) + Minified(k) && Closed(Quoted(s) + k) == Closed(k) {
      QuotedKept(s, k);
    }
  }

  lemma QuotedKept(s: seq<byte>, k: seq<byte>)
    ensures Minified(Quoted(s) + k) == Quoted(s) + Minified(k) && Closed(Quoted(s) + k) == Closed(k)
  {
    hide EscapeBody, AfterLine, AfterBlock;
    var q := [QUOTE] + k;
    assert (Quoted(s) + k)[1..] == EscapeBody(s) + q;
    EscapedKept(s, q);
    assert q[1..] == k;
    assert [QUOTE] + (EscapeBody(s) + ([QUOTE] + Minified(k))) == Quoted(s) + Minified(k);
  }

  // ----- values

  lemma {:induction false} LeavesValue(v: Value, depth: nat, other: nat, fmt: bool)
    ensures Leaves(PrintValue(v, depth, fmt), PrintValue(v, other, false))
    decreases v, 1
  {
    hide Leaves;
    match v
    case Number(d) => LeavesCopied(PrintNumber(d));
    case String(s) => LeavesQuoted(s);
    case Array(l) =>
      LeavesCopied([LBRACKET]);
      LeavesElems(l, depth, other, fmt);
      LeavesConcat([LBRACKET], [LBRACKET], PrintElems(l, depth, fmt), PrintElems(l, other, false));
      LeavesClose([LBRACKET] + PrintElems(l, depth, fmt), [LBRACKET] + PrintElems(l, other, false), 0, RBRACKET, fmt);
    case Object(l) => LeavesObject(l, depth, other, fmt);
    case _ => LeavesCopied(PrintValue(v, depth, fmt));
  }

  /** Tabs and a closing byte. */
  lemma LeavesClose(a: seq<byte>, b: seq<byte>, tabs: int, close: byte, fmt: bool)
    requires Leaves(a, b) && (close == RBRACKET || close == RBRACE)
    ensures Leaves(a + Tabs(tabs, fmt) + [close], b + Tabs(tabs, false) + [close])
    ensures Leaves(a + [close], b + [close])
  {
    hide Leaves;
    LeavesBlank(Tabs(tabs, fmt));
    LeavesCopied([close]);
    LeavesConcat(a, b, Tabs(tabs, fmt), []);
    LeavesConcat(a + Tabs(tabs, fmt), b + [], [close], [close]);
    LeavesConcat(a, b, [close], [close]);
  }

  lemma LeavesOpen(fmt: bool)
    ensures Leaves(OpenBrace(fmt), OpenBrace(false))
  {
    hide Leaves;
    var w: seq<byte> := if fmt then [LF] else [];
    LeavesCopied([LBRACE]);
    LeavesBlank(w);
    LeavesConcat([LBRACE], [LBRACE], w, []);
    assert [LBRACE] + [] == OpenBrace(false) && [LBRACE] + w == OpenBrace(fmt);
  }

  lemma {:induction false} LeavesObject(l: Items, depth: nat, other: nat, fmt: bool)
    ensures Leaves(PrintValue(Object(l), depth, fmt), PrintValue(Object(l), other, false))
    decreases l, 1
  {
    hide Leaves, PrintMembers;
    LeavesOpen(fmt);
    if l.Nil? {
      LeavesClose(OpenBrace(fmt), OpenBrace(false), depth - 1, RBRACE, fmt);
    } else {
      var a, b := PrintMembers(l, depth + 1, fmt), PrintMembers(l, other + 1, false);
      LeavesMembers(l, depth + 1, other + 1, fmt);
      LeavesConcat(OpenBrace(fmt), OpenBrace(false), a, b);
      LeavesClose(OpenBrace(fmt) + a, OpenBrace(false) + b, depth, RBRACE, fmt);
    }
  }

  lemma LeavesElemSeparator(rest: Items, fmt: bool)
    ensures Leaves(ElemSeparator(rest.Nil?, fmt), ElemSeparator(rest.Nil?, false))
  {
    hide Leaves;
    LeavesBlank([]);
    var w: seq<byte> := if fmt then [SPACE] else [];
    LeavesBlank(w);
    LeavesCopied([COMMA]);
    LeavesConcat([COMMA], [COMMA], w, []);
    assert [COMMA] + [SPACE] == [COMMA, SPACE] && [COMMA] + [] == [COMMA];
  }

  lemma {:induction false} LeavesElems(l: Items, depth: nat, other: nat, fmt: bool)
    ensures Leaves(PrintElems(l, depth, fmt), PrintElems(l, other, false))
    decreases l, 0
  {
    hide Leaves, PrintValue, ElemSeparator;
    match l
    case Nil => LeavesBlank([]);
    case Cons(_, v, rest) =>
      var a, b := PrintValue(v, depth + 1, fmt), PrintValue(v, other + 1, false);
      var c, d := ElemSeparator(rest.Nil?, fmt), ElemSeparator(rest.Nil?, false);
      LeavesValue(v, depth + 1, other + 1, fmt);
      LeavesElemSeparator(rest, fmt);
      LeavesElems(rest, depth, other, fmt);
      LeavesConcat(a, b, c, d);
      LeavesConcat(a + c, b + d, PrintElems(rest, depth, fmt), PrintElems(rest, other, false));
  }

  lemma LeavesHead(k: Option<seq<byte>>, depth: nat, other: nat, fmt: bool)
    ensures Leaves(MemberHead(k, depth, fmt), MemberHead(k, other, false))
  {
    hide Leaves, Quoted;
    var q := Quoted(KeyText(k));
    LeavesBlank(Tabs(depth, fmt));
    LeavesQuoted(KeyText(k));
    LeavesConcat(Tabs(depth, fmt), [], q, q);
    LeavesCopied([COLON]);
    var w: seq<byte> := if fmt then [TAB] else [];
    LeavesBlank(w);
    LeavesConcat([COLON], [COLON], w, []);
    assert [COLON] + w == Colon(fmt) && [COLON] + [] == Colon(false);
    LeavesConcat(Tabs(depth, fmt) + q, [] + q, Colon(fmt), Colon(false));
  }

  lemma LeavesEnd(rest: Items, fmt: bool)
    ensures Leaves(MemberEnd(rest.Nil?, fmt), MemberEnd(rest.Nil?, false))
  {
    hide Leaves;
    var c: seq<byte> := if rest.Nil? then [] else [COMMA];
    LeavesCopied(c);
    var w: seq<byte> := if fmt then [LF] else [];
    LeavesBlank(w);
    LeavesConcat(c, c, w, []);
  }

  lemma {:induction false} LeavesMembers(l: Items, depth: nat, other: nat, fmt: bool)
    ensures Leaves(PrintMembers(l, depth, fmt), PrintMembers(l, other, false))
    decreases l, 0
  {
    hide Leaves, PrintValue, MemberHead, MemberEnd;
    match l
    case Nil => LeavesBlank([]);
    case Cons(k, v, rest) =>
      var a, b := MemberHead(k, depth, fmt), MemberHead(k, other, false);
      var c, d := PrintValue(v, depth, fmt), PrintValue(v, other, false);
      var e, f := MemberEnd(rest.Nil?, fmt), MemberEnd(rest.Nil?, false);
      LeavesHead(k, depth, other, fmt);
      LeavesValue(v, depth, other, fmt);
      LeavesEnd(rest, fmt);
      LeavesMembers(rest, depth, other, fmt);
      LeavesConcat(a, b, c, d);
      LeavesConcat(a + c, b + d, e, f);
      LeavesConcat(a + c + e, b + d + f, PrintMembers(rest, depth, fmt), PrintMembers(rest, other, false));
  }

  /**
   * Byte for byte, for every value: formatted text minifies to unformatted text, which is a
   * fixed point. Both are texts cJSON_Minify handles.
   */
  lemma MinifyPrintedText(v: Value, fmt: bool)
    ensures Minified(PrintValue(v, 0, fmt)) == PrintValue(v, 0, false)
    ensures Closed(PrintValue(v, 0, fmt))
  {
    hide PrintValue;
    var s, t := PrintValue(v, 0, fmt), PrintValue(v, 0, false);
    LeavesValue(v, 0, 0, fmt);
    LeavesAt(s, t, []);
    assert s + [] == s && t + [] == t;
  }
}
