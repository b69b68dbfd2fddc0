/** The texts cJSON prints: print_value, print_array, print_object, in both formats. */
module Printing {
  import opened Bytes
  import opened Json
  import opened StringLiteral
  import opened Numbers

  function PrintNumber(d: real): seq<byte> { PrintInt(d.Floor) }

  function PrintValue(v: Value, depth: nat, fmt: bool): seq<byte>
    decreases v, 1
  {
    match v
    case Null => NULL_TEXT
    case False => FALSE_TEXT
    case True => TRUE_TEXT
    case Number(d) => PrintNumber(d)
    case String(s) => Quoted(s)
    case Array(l) => [LBRACKET] + PrintElems(l, depth, fmt) + [RBRACKET]
    case Object(l) =>
      if l.Nil? then OpenBrace(fmt) + Tabs(depth - 1, fmt) + [RBRACE]
      else OpenBrace(fmt) + PrintMembers(l, depth + 1, fmt) + Tabs(depth, fmt) + [RBRACE]
  }

  /** The elements of an array; `depth` is the depth of the array itself. */
  function PrintElems(l: Items, depth: nat, fmt: bool): seq<byte>
    decreases l, 0
  {
    match l
    case Nil => []
    case Cons(_, v, rest) =>
      PrintValue(v, depth + 1, fmt) + ElemSeparator(rest.Nil?, fmt) + PrintElems(rest, depth, fmt)
  }

  /** The members of an object; `depth` is one more than the depth of the object. */
  function PrintMembers(l: Items, depth: nat, fmt: bool): seq<byte>
    decreases l, 0
  {
    match l
    case Nil => []
    case Cons(k, v, rest) =>
      MemberHead(k, depth, fmt) + PrintValue(v, depth, fmt) + MemberEnd(rest.Nil?, fmt) + PrintMembers(rest, depth, fmt)
  }

  function KeyText(k: Option<seq<byte>>): seq<byte> {
    match k case None => [] case Some(s) => s
  }

  function MemberHead(k: Option<seq<byte>>, depth: nat, fmt: bool): seq<byte> {
    Tabs(depth, fmt) + Quoted(KeyText(k)) + Colon(fmt)
  }

  function ElemSeparator(last: bool, fmt: bool): seq<byte> {
    if last then [] else if fmt then [COMMA, SPACE] else [COMMA]
  }

  function MemberEnd(last: bool, fmt: bool): seq<byte> {
    (if last then [] else [COMMA]) + (if fmt then [LF] else [])
  }

  function OpenBrace(fmt: bool): seq<byte> { if fmt then [LBRACE, LF] else [LBRACE] }

  function Colon(fmt: bool): seq<byte> { if fmt then [COLON, TAB] else [COLON] }

  function Tabs(n: int, fmt: bool): seq<byte> {
    if fmt && n > 0 then Repeat(TAB, n) else []
  }

  /** A printed text is a C string. */
  lemma {:induction false} ValueNulFree(v: Value, depth: nat, fmt: bool)
    requires Textual(v)
    ensures NulFree(PrintValue(v, depth, fmt))
    decreases v, 1
  {
    hide PrintElems, PrintMembers, EscapeBody, PrintInt;
    match v
    case String(s) => EscapedNulFree(s);
    case Array(l) => ElemsNulFree(l, depth, fmt);
    case Object(l) => MembersNulFree(l, depth + 1, fmt);
    case _ =>
  }

  lemma {:induction false} ElemsNulFree(l: Items, depth: nat, fmt: bool)
    requires TextualItems(l)
    ensures NulFree(PrintElems(l, depth, fmt))
    decreases l, 0
  {
    match l
    case Nil =>
    case Cons(_, v, rest) =>
      ValueNulFree(v, depth + 1, fmt);
      ElemsNulFree(rest, depth, fmt);
  }

  lemma {:induction false} MembersNulFree(l: Items, depth: nat, fmt: bool)
    requires TextualItems(l)
    ensures NulFree(PrintMembers(l, depth, fmt))
    decreases l, 0
  {
    hide PrintValue, Quoted;
    match l
    case Nil =>
    case Cons(k, v, rest) =>
      EscapedNulFree(KeyText(k));
      ValueNulFree(v, depth, fmt);
      MembersNulFree(rest, depth, fmt);
  }
}
