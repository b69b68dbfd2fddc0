/** Parsing undoes printing, for every printable value, depth and format. */
module RoundTrip {
  import opened Bytes
  import opened Json
  import opened StringLiteral
  import opened Numbers
  import opened Parsing
  import opened Printing

  /** Skipping passes over leading whitespace whatever follows. */
  lemma {:induction false} SkipOver(w: seq<byte>, s: seq<byte>)
    requires forall i :: 0 <= i < |w| ==> 0 < w[i] <= SPACE
    ensures Skip(w + s) == Skip(s)
  {
    if w == [] {
      assert w + s == s;
    } else {
      assert (w + s)[1..] == w[1..] + s;
      SkipOver(w[1..], s);
    }
  }

  /** A printed value starts with a visible byte that closes nothing. */
  lemma PrintedHead(v: Value, depth: nat, fmt: bool, k: seq<byte>)
    ensures var s := PrintValue(v, depth, fmt) + k;
            s != [] && s[0] > SPACE && s[0] != RBRACKET && s[0] != RBRACE && Skip(s) == s
  {
    hide PrintElems, PrintMembers, EscapeBody, Tabs, Decimal;
    match v
    case Number(d) => assert StartsNumber(PrintNumber(d));
    case _ =>
  }

  lemma LeafRoundTrip(v: Value, depth: nat, fmt: bool, k: seq<byte>)
    requires Printable(v) && Ends(k) && !v.Array? && !v.Object?
    ensures ParseValue(PrintValue(v, depth, fmt) + k) == Parsed(v, k)
  {
    var s := PrintValue(v, depth, fmt) + k;
    match v
    case Number(d) =>
      NumberRoundTrip(d.Floor, k);
      Dispatch(s);
    case String(t) => QuotedText(t, k);
    case _ =>
  }

  /** Printing then parsing in front of any text that cannot continue a number. */
  lemma {:induction false} ValueRoundTrip(v: Value, depth: nat, fmt: bool, k: seq<byte>)
    requires Printable(v) && Ends(k)
    ensures ParseValue(PrintValue(v, depth, fmt) + k) == Parsed(v, k)
    decreases v, 1
  {
    Dispatch(PrintValue(v, depth, fmt) + k);
    match v
    case Array(l) =>
      if l.Cons? { ElemsRoundTrip(l, depth, fmt, k); }
      ArrayRoundTrip(l, depth, fmt, k);
    case Object(l) =>
      if l.Nil? {
        EmptyObjectRoundTrip(depth, fmt, k);
      } else {
        MembersRoundTrip(l, depth, fmt, k);
        ObjectRoundTrip(l, depth, fmt, k);
      }
    case _ => LeafRoundTrip(v, depth, fmt, k);
  }

  // ----- arrays

  /** The text of an array behind its opening bracket, or behind a comma and its space. */
  function ElemsText(l: Items, depth: nat, fmt: bool, k: seq<byte>): seq<byte> {
    PrintElems(l, depth, fmt) + ([RBRACKET] + k)
  }

  lemma ElemsTextStep(l: Items, depth: nat, fmt: bool, k: seq<byte>)
    requires l.Cons?
    ensures ElemsText(l, depth, fmt, k)
         == PrintValue(l.value, depth + 1, fmt) + (ElemSeparator(l.rest.Nil?, fmt) + ElemsText(l.rest, depth, fmt, k))
  {
    hide PrintValue, ElemSeparator;
  }

  lemma ArrayText(l: Items, depth: nat, fmt: bool, k: seq<byte>)
    ensures PrintValue(Array(l), depth, fmt) + k == [LBRACKET] + ElemsText(l, depth, fmt, k)
  {
  }

  lemma ArrayRoundTrip(l: Items, depth: nat, fmt: bool, k: seq<byte>)
    requires l.Cons? ==> ParseElems(ElemsText(l, depth, fmt, k)) == ParsedItems(l, k)
    ensures var s := PrintValue(Array(l), depth, fmt) + k;
            Starts(s, LBRACKET) && ParseArray(s) == Parsed(Array(l), k)
  {
    var t := ElemsText(l, depth, fmt, k);
    ArrayText(l, depth, fmt, k);
    assert ([LBRACKET] + t)[1..] == t;
    if l.Nil? {
      assert t == [RBRACKET] + k;
    } else {
      ElemsTextStep(l, depth, fmt, k);
      PrintedHead(l.value, depth + 1, fmt, ElemSeparator(l.rest.Nil?, fmt) + ElemsText(l.rest, depth, fmt, k));
    }
  }

  /** One step of the element loop of parse_array. */
  lemma ElemsStep(x: seq<byte>, v: Value, y: seq<byte>, l: Items, k: seq<byte>)
    requires Skip(x) == x && ParseValue(x) == Parsed(v, y) && y != []
    requires if l.Nil? then y == [RBRACKET] + k else y[0] == COMMA && ParseElems(y[1..]) == ParsedItems(l, k)
    ensures ParseElems(x) == ParsedItems(Cons(None, v, l), k)
  {
    hide ParseValue;
    assert Skip(y) == y;
    if l.Nil? { assert y[1..] == k; }
  }

  lemma {:induction false} ElemsRoundTrip(l: Items, depth: nat, fmt: bool, k: seq<byte>)
    requires PrintableItems(l, false) && Ends(k) && l.Cons?
    ensures ParseElems(ElemsText(l, depth, fmt, k)) == ParsedItems(l, k)
    decreases l, 0
  {
    hide ParseValue, PrintValue, ParseElems;
    var k2 := ElemsText(l.rest, depth, fmt, k);
    var k1 := ElemSeparator(l.rest.Nil?, fmt) + k2;
    ElemsTextStep(l, depth, fmt, k);
    PrintedHead(l.value, depth + 1, fmt, k1);
    if l.rest.Nil? {
      assert k1 == [RBRACKET] + k;
    } else {
      ElemsRoundTrip(l.rest, depth, fmt, k);
      var gap: seq<byte> := if fmt then [SPACE] else [];
      assert k1[1..] == gap + k2;
      SkipOver(gap, k2);
      ItemsSkip(k1[1..], k2);
    }
    ValueRoundTrip(l.value, depth + 1, fmt, k1);
    ElemsStep(ElemsText(l, depth, fmt, k), l.value, k1, l.rest, k);
  }

  /** Items are parsed from the first visible byte on. */
  lemma ItemsSkip(s: seq<byte>, t: seq<byte>)
    requires Skip(s) == Skip(t)
    ensures ParseElems(s) == ParseElems(t)
    ensures ParseMembers(s) == ParseMembers(t)
  {
  }

  // ----- objects

  /** The text of an object behind its opening brace, or behind a comma and its newline. */
  function MembersText(l: Items, depth: nat, fmt: bool, k: seq<byte>): seq<byte> {
    PrintMembers(l, depth + 1, fmt) + (Tabs(depth, fmt) + [RBRACE] + k)
  }

  function Gap(fmt: bool): seq<byte> { if fmt then [LF] else [] }

  lemma MembersTextStep(l: Items, depth: nat, fmt: bool, k: seq<byte>)
    requires l.Cons?
    ensures MembersText(l, depth, fmt, k)
         == MemberHead(l.key, depth + 1, fmt)
          + (PrintValue(l.value, depth + 1, fmt) + (MemberEnd(l.rest.Nil?, fmt) + MembersText(l.rest, depth, fmt, k)))
  {
    hide PrintValue, MemberHead, MemberEnd, Tabs;
  }

  lemma ObjectText(l: Items, depth: nat, fmt: bool, k: seq<byte>)
    requires l.Cons?
    ensures PrintValue(Object(l), depth, fmt) + k == [LBRACE] + (Gap(fmt) + MembersText(l, depth, fmt, k))
  {
  }

  /** A key and what follows it. */
  lemma HeadText(key: Option<seq<byte>>, depth: nat, fmt: bool, u: seq<byte>)
    requires NulFree(KeyText(key))
    ensures var t := Skip(MemberHead(key, depth, fmt) + u);
            Starts(t, QUOTE) && DecodeBody(t[1..]) == Decoded(KeyText(key), Colon(fmt) + u)
  {
    var name := KeyText(key);
    var w := Colon(fmt) + u;
    var t := Quoted(name) + w;
    assert MemberHead(key, depth, fmt) + u == Tabs(depth, fmt) + t;
    SkipOver(Tabs(depth, fmt), t);
    QuotedText(name, w);
  }

  lemma QuotedText(name: seq<byte>, w: seq<byte>)
    requires NulFree(name)
    ensures var t := Quoted(name) + w; Skip(t) == t && Starts(t, QUOTE) && DecodeBody(t[1..]) == Decoded(name, w)
  {
    assert (Quoted(name) + w)[1..] == EscapeBody(name) + [QUOTE] + w;
    EscapeRoundTrip(name, w);
  }

  lemma ColonText(fmt: bool, u: seq<byte>)
    ensures var w := Colon(fmt) + u; Skip(w) == w && w[0] == COLON && Skip(w[1..]) == Skip(u)
  {
    var gap := Colon(fmt)[1..];
    assert (Colon(fmt) + u)[1..] == gap + u;
    SkipOver(gap, u);
  }

  lemma EmptyObjectRoundTrip(depth: nat, fmt: bool, k: seq<byte>)
    ensures var s := PrintValue(Object(Nil), depth, fmt) + k;
            Starts(s, LBRACE) && ParseObject(s) == Parsed(Object(Nil), k)
  {
    hide ParseMembers;
    var w := Gap(fmt) + Tabs(depth - 1, fmt);
    assert (PrintValue(Object(Nil), depth, fmt) + k)[1..] == w + ([RBRACE] + k);
    SkipOver(w, [RBRACE] + k);
  }

  lemma ObjectRoundTrip(l: Items, depth: nat, fmt: bool, k: seq<byte>)
    requires l.Cons?
    requires var t := MembersText(l, depth, fmt, k);
             ParseMembers(t) == ParsedItems(l, k) && Starts(Skip(t), QUOTE)
    ensures var s := PrintValue(Object(l), depth, fmt) + k;
            Starts(s, LBRACE) && ParseObject(s) == Parsed(Object(l), k)
  {
    var t := MembersText(l, depth, fmt, k);
    ObjectText(l, depth, fmt, k);
    assert ([LBRACE] + (Gap(fmt) + t))[1..] == Gap(fmt) + t;
    SkipOver(Gap(fmt), t);
    ItemsSkip(Skip(t), t);
  }

  /** One step of the member loop of parse_object. */
  lemma MembersStep(t: seq<byte>, name: seq<byte>, w: seq<byte>, v: Value, y: seq<byte>, l: Items, k: seq<byte>)
    requires Starts(Skip(t), QUOTE) && DecodeBody(Skip(t)[1..]) == Decoded(name, w)
    requires Starts(Skip(w), COLON) && ParseValue(Skip(Skip(w)[1..])) == Parsed(v, y)
    requires if l.Nil? then Skip(y) == [RBRACE] + k
             else Starts(y, COMMA) && ParseMembers(y[1..]) == ParsedItems(l, k)
    ensures ParseMembers(t) == ParsedItems(Cons(Some(name), v, l), k)
  {
    hide ParseValue, DecodeBody;
    if l.Nil? { assert Skip(y)[1..] == k; }
  }

  /** Behind a member: the end of the object, or a comma and the next member. */
  lemma MemberEndText(rest: Items, depth: nat, fmt: bool, k: seq<byte>)
    ensures var y := MemberEnd(rest.Nil?, fmt) + MembersText(rest, depth, fmt, k);
            Ends(y) &&
            if rest.Nil? then Skip(y) == [RBRACE] + k
            else Starts(y, COMMA) && Skip(y[1..]) == Skip(MembersText(rest, depth, fmt, k))
  {
    if rest.Nil? { LastMemberEnd(depth, fmt, k); } else { InnerMemberEnd(rest, MembersText(rest, depth, fmt, k), fmt); }
  }

  lemma LastMemberEnd(depth: nat, fmt: bool, k: seq<byte>)
    ensures var y := MemberEnd(true, fmt) + MembersText(Nil, depth, fmt, k); Ends(y) && Skip(y) == [RBRACE] + k
  {
    var w := Gap(fmt) + Tabs(depth, fmt);
    assert MemberEnd(true, fmt) + MembersText(Nil, depth, fmt, k) == w + ([RBRACE] + k);
    SkipOver(w, [RBRACE] + k);
  }

  lemma InnerMemberEnd(rest: Items, t: seq<byte>, fmt: bool)
    requires rest.Cons?
    ensures var y := MemberEnd(rest.Nil?, fmt) + t; Ends(y) && Starts(y, COMMA) && Skip(y[1..]) == Skip(t)
  {
    assert (MemberEnd(rest.Nil?, fmt) + t)[1..] == Gap(fmt) + t;
    SkipOver(Gap(fmt), t);
  }

  lemma {:induction false} MembersRoundTrip(l: Items, depth: nat, fmt: bool, k: seq<byte>)
    requires PrintableItems(l, true) && Ends(k) && l.Cons?
    ensures var t := MembersText(l, depth, fmt, k);
            ParseMembers(t) == ParsedItems(l, k) && Starts(Skip(t), QUOTE)
    decreases l, 0
  {
    hide ParseValue, PrintValue, PrintMembers, ParseMembers, MemberHead, DecodeBody;
    var k1 := MemberEnd(l.rest.Nil?, fmt) + MembersText(l.rest, depth, fmt, k);
    var u := PrintValue(l.value, depth + 1, fmt) + k1;
    MembersTextStep(l, depth, fmt, k);
    HeadText(l.key, depth + 1, fmt, u);
    ColonText(fmt, u);
    PrintedHead(l.value, depth + 1, fmt, k1);
    MemberEndText(l.rest, depth, fmt, k);
    if l.rest.Cons? {
      MembersRoundTrip(l.rest, depth, fmt, k);
      ItemsSkip(k1[1..], MembersText(l.rest, depth, fmt, k));
    }
    ValueRoundTrip(l.value, depth + 1, fmt, k1);
    MembersStep(MembersText(l, depth, fmt, k), KeyText(l.key), Colon(fmt) + u, l.value, k1, l.rest, k);
  }

  /** cJSON_Parse of cJSON_Print or cJSON_PrintUnformatted gives an equal tree and reads the whole text. */
  lemma PrintParse(v: Value, fmt: bool)
    requires Printable(v)
    ensures ParseText(PrintValue(v, 0, fmt)) == Parsed(v, [])
    ensures ParseValue(PrintValue(v, 0, fmt)) == Parsed(v, [])
  {
    var s := PrintValue(v, 0, fmt);
    assert s + [] == s;
    PrintedHead(v, 0, fmt, []);
    ValueRoundTrip(v, 0, fmt, []);
  }

  /** Hence two printable values with the same text are the same value. */
  lemma PrintInjective(v: Value, w: Value, fmt: bool)
    requires Printable(v) && Printable(w)
    requires PrintValue(v, 0, fmt) == PrintValue(w, 0, fmt)
    ensures v == w
  {
    PrintParse(v, fmt);
    PrintParse(w, fmt);
  }
}
