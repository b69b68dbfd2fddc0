/**
 * What cJSON prints is JSON: the tree of the grammar behind each printed text, with every gap,
 * escape and digit of either format.
 */
module GrammarPrint {
  import opened Bytes
  import opened Json
  import opened StringLiteral
  import opened Numbers
  import opened Printing
  import opened GrammarParse
  import G = Grammar

  // ----- numbers

  function DigitsOf(n: nat): (ds: seq<G.Digit>)
    ensures ds != [] && (ds[0] == 0 ==> |ds| == 1 && n == 0)
  {
    if n < 10 then [n] else DigitsOf(n / 10) + [n % 10]
  }

  /** A minus if there is one, and the digits: no fraction, no exponent. */
  function NumberLayout(i: int): G.Numeral {
    G.Numeral(i < 0, DigitsOf(if i < 0 then -i else i), [], G.NoExponent)
  }

  lemma {:induction false} DigitsJoin(a: seq<G.Digit>, b: seq<G.Digit>)
    ensures G.WrittenDigits(a + b) == G.WrittenDigits(a) + G.WrittenDigits(b)
  {
    if a == [] {
      assert a + b == b;
    } else {
      assert (a + b)[0] == a[0] && (a + b)[1..] == a[1..] + b;
      DigitsJoin(a[1..], b);
    }
  }

  lemma {:induction false} DigitsLaid(n: nat)
    ensures G.WrittenDigits(DigitsOf(n)) == Decimal(n) && G.Natural(DigitsOf(n)) == n
  {
    var ds := DigitsOf(n);
    assert ds[..|ds| - 1] == if n < 10 then [] else DigitsOf(n / 10);
    NaturalLast(ds);
    OneWritten(n % 10);
    if n >= 10 {
      hide G.WrittenDigits, G.Natural;
      DigitsLaid(n / 10);
      DigitsJoin(DigitsOf(n / 10), [n % 10]);
    }
  }

  lemma OneWritten(d: G.Digit)
    ensures var n: int := d; G.WrittenDigits([d]) == [0x30 + n]
  {
  }

  lemma NumberLaid(i: int)
    ensures var n := NumberLayout(i);
            G.ValidNumeral(n) && G.WrittenNumeral(n) == PrintInt(i) && G.NumeralValue(n) == i as real
  {
    var n := NumberLayout(i);
    DigitsLaid(if i < 0 then -i else i);
    assert n.whole + n.fraction == n.whole;
    hide G.WrittenDigits, G.Natural, Decimal;
    assert G.Ten(0) == 1;
  }

  // ----- strings

  /** The escape of one byte: a letter if there is one, or four lower-case hex digits. */
  function CharLayout(b: byte): G.Char {
    match b
    case 0x22 => G.Letter(0x22)
    case 0x5C => G.Letter(0x5C)
    case 0x08 => G.Letter(0x62)
    case 0x0C => G.Letter(0x66)
    case 0x0A => G.Letter(0x6E)
    case 0x0D => G.Letter(0x72)
    case 0x09 => G.Letter(0x74)
    case _ =>
      if b >= 0x20 then G.Raw(b)
      else G.Point(b, [0x5C, 0x75, 0x30, 0x30, G.LOWER[b / 16], G.LOWER[b % 16]])
  }

  function CharsLayout(s: seq<byte>): seq<G.Char> {
    if s == [] then [] else [CharLayout(s[0])] + CharsLayout(s[1..])
  }

  lemma DigitSpelled(d: nat)
    requires d < 16
    ensures G.LOWER[d] == HexLower(d) && G.SpellsDigit(G.LOWER[d], d) && G.LOWER[0] == 0x30
  {
  }

  lemma LowDigits(b: byte)
    requires b < 0x20
    ensures G.LOWER[b / 16] == HexLower(b / 16) && G.LOWER[b % 16] == HexLower(b % 16)
    ensures G.Spells([0x5C, 0x75, 0x30, 0x30, G.LOWER[b / 16], G.LOWER[b % 16]], b)
  {
    var n: int := b;
    assert n / 4096 == 0 && n / 256 % 16 == 0 && n / 16 % 16 == n / 16;
    DigitSpelled(0);
    DigitSpelled(n / 16);
    DigitSpelled(n % 16);
    hide G.SpellsDigit, HexLower;
  }

  lemma CharLaid(b: byte)
    ensures G.WrittenChar(CharLayout(b)) == EscapeByte(b)
    ensures b != 0 ==> G.ValidChar(CharLayout(b)) && G.CharMeaning(CharLayout(b)) == [b]
  {
    if b < 0x20 { LowDigits(b); }
    hide G.Spells, HexLower;
  }

  lemma {:induction false} CharsLaid(s: seq<byte>)
    ensures G.WrittenChars(CharsLayout(s)) == EscapeBody(s)
    ensures NulFree(s) ==> G.ValidChars(CharsLayout(s)) && G.CharsMeaning(CharsLayout(s)) == s
  {
    if s != [] {
      hide G.WrittenChar, G.CharMeaning, G.ValidChar, CharLayout, EscapeByte;
      var c, cs := CharLayout(s[0]), CharsLayout(s[1..]);
      CharLaid(s[0]);
      CharsLaid(s[1..]);
      assert ([c] + cs)[1..] == cs;
    }
  }

  lemma StringLaid(s: seq<byte>)
    ensures G.WrittenString(CharsLayout(s)) == Quoted(s)
    ensures NulFree(s) ==> G.ValidChars(CharsLayout(s)) && G.CharsMeaning(CharsLayout(s)) == s
  {
    CharsLaid(s);
    hide G.WrittenChars, EscapeBody, CharsLayout, G.ValidChars, G.CharsMeaning;
  }

  // ----- values

  /** A line feed and tabs in formatted text, nothing otherwise. */
  function NewLine(tabs: int, fmt: bool): G.Gap {
    if fmt then [G.Space(0x0A)] + seq(if tabs < 0 then 0 else tabs, _ => G.Space(0x09)) else []
  }

  function OneBlank(b: byte, fmt: bool): G.Gap { if fmt then [G.Space(b)] else [] }

  function Layout(v: Value, depth: nat, fmt: bool): G.Syntax
    decreases v, 1
  {
    match v
    case Null => G.NullWord
    case False => G.FalseWord
    case True => G.TrueWord
    case Number(d) => G.Number(NumberLayout(d.Floor))
    case String(s) => G.Text(CharsLayout(s))
    case Array(l) =>
      if l.Nil? then G.EmptyArray([]) else G.FullArray(ElementsLayout(l, [], depth + 1, fmt))
    case Object(l) =>
      if l.Nil? then G.EmptyObject(NewLine(depth - 1, fmt)) else G.FullObject(MembersLayout(l, depth + 1, fmt))
  }

  /** Elements stand on one line, with a space behind every comma. */
  function ElementsLayout(l: Items, before: G.Gap, depth: nat, fmt: bool): G.Elements
    requires l.Cons?
    decreases l, 0
  {
    var e := G.Element(before, Layout(l.value, depth, fmt), []);
    if l.rest.Nil? then G.LastElement(e)
    else G.MoreElements(e, ElementsLayout(l.rest, OneBlank(0x20, fmt), depth, fmt))
  }

  /**
   * Each member stands on a line of its own, behind as many tabs as it is deep, with a tab between
   * colon and value; the closing brace stands on a line with one tab less.
   */
  function MembersLayout(l: Items, depth: nat, fmt: bool): G.Members
    requires l.Cons?
    decreases l, 0
  {
    var key := CharsLayout(KeyText(l.key));
    var value := Layout(l.value, depth, fmt);
    if l.rest.Nil? then
      G.LastMember(G.Member(NewLine(depth, fmt), key, [], OneBlank(0x09, fmt), value, NewLine(depth - 1, fmt)))
    else
      G.MoreMembers(G.Member(NewLine(depth, fmt), key, [], OneBlank(0x09, fmt), value, []),
                    MembersLayout(l.rest, depth, fmt))
  }

  // ----- the bytes

  lemma {:induction false} TabsWritten(n: nat)
    ensures G.WrittenGap(seq(n, _ => G.Space(0x09))) == Tabs(n, true)
  {
    if n > 0 {
      var g := seq(n, _ => G.Space(0x09));
      assert g[1..] == seq(n - 1, _ => G.Space(0x09));
      TabsWritten(n - 1);
    }
  }

  lemma NewLineWritten(tabs: int, fmt: bool)
    ensures G.WrittenGap(NewLine(tabs, fmt)) == (if fmt then [0x0A] else []) + Tabs(tabs, fmt)
  {
    if fmt {
      var g := seq(if tabs < 0 then 0 else tabs, _ => G.Space(0x09));
      TabsWritten(|g|);
      assert NewLine(tabs, fmt)[1..] == g;
    }
  }

  lemma OneBlankWritten(b: byte, fmt: bool)
    ensures G.WrittenGap(OneBlank(b, fmt)) == if fmt then [b] else []
  {
  }

  lemma LeafWritten(v: Value, depth: nat, fmt: bool)
    requires !v.Array? && !v.Object?
    ensures G.Written(Layout(v, depth, fmt)) == PrintValue(v, depth, fmt)
  {
    hide G.WrittenNumeral, G.WrittenString, Quoted, PrintInt, NumberLayout, CharsLayout;
    match v
    case Number(d) => NumberLaid(d.Floor);
    case String(s) => StringLaid(s);
    case _ =>
  }

  lemma ArrayWritten(l: Items, depth: nat, fmt: bool)
    requires l.Cons? ==> G.WrittenElements(ElementsLayout(l, [], depth + 1, fmt)) == PrintElems(l, depth, fmt)
    ensures G.Written(Layout(Array(l), depth, fmt)) == PrintValue(Array(l), depth, fmt)
  {
    NothingWritten(depth, fmt);
    hide G.WrittenElements, G.WrittenGap, PrintElems, ElementsLayout;
  }

  lemma ObjectWritten(l: Items, depth: nat, fmt: bool)
    requires l.Cons? ==> G.WrittenMembers(MembersLayout(l, depth + 1, fmt)) ==
                         (if fmt then [0x0A] else []) + PrintMembers(l, depth + 1, fmt) + Tabs(depth, fmt)
    ensures G.Written(Layout(Object(l), depth, fmt)) == PrintValue(Object(l), depth, fmt)
  {
    NewLineWritten(depth - 1, fmt);
    hide G.WrittenMembers, G.WrittenGap, PrintMembers, MembersLayout, Tabs, NewLine;
  }

  /** The printed text, byte for byte, for every value in both formats. */
  lemma {:induction false} LayoutWritten(v: Value, depth: nat, fmt: bool)
    ensures G.Written(Layout(v, depth, fmt)) == PrintValue(v, depth, fmt)
    decreases v, 1
  {
    hide G.Written, Layout, PrintValue, G.WrittenElements, G.WrittenMembers, G.WrittenGap, PrintElems, PrintMembers;
    match v
    case Array(l) =>
      if l.Cons? {
        ElementsWritten(l, [], depth, fmt);
        NothingWritten(depth, fmt);
      }
      ArrayWritten(l, depth, fmt);
    case Object(l) =>
      if l.Cons? { MembersWritten(l, depth + 1, fmt); }
      ObjectWritten(l, depth, fmt);
    case _ => LeafWritten(v, depth, fmt);
  }

  lemma NothingWritten(depth: nat, fmt: bool)
    ensures G.WrittenGap([]) == [] && PrintElems(Nil, depth, fmt) == [] && PrintMembers(Nil, depth, fmt) == []
  {
  }

  lemma {:induction false} ElementsWritten(l: Items, before: G.Gap, depth: nat, fmt: bool)
    requires l.Cons?
    ensures G.WrittenElements(ElementsLayout(l, before, depth + 1, fmt))
            == G.WrittenGap(before) + PrintElems(l, depth, fmt)
    decreases l, 0
  {
    hide G.Written, G.WrittenGap, Layout, PrintValue, OneBlank;
    LayoutWritten(l.value, depth + 1, fmt);
    NothingWritten(depth, fmt);
    if l.rest.Cons? {
      ElementsWritten(l.rest, OneBlank(0x20, fmt), depth, fmt);
      OneBlankWritten(0x20, fmt);
    }
  }

  lemma {:induction false} MembersWritten(l: Items, depth: nat, fmt: bool)
    requires l.Cons? && depth > 0
    ensures G.WrittenMembers(MembersLayout(l, depth, fmt)) ==
            (if fmt then [0x0A] else []) + PrintMembers(l, depth, fmt) + Tabs(depth - 1, fmt)
    decreases l, 0
  {
    hide PrintMembers, G.Written, G.WrittenGap, Layout, PrintValue, OneBlank, NewLine, Tabs, G.WrittenString, Quoted;
    LayoutWritten(l.value, depth, fmt);
    StringLaid(KeyText(l.key));
    NewLineWritten(depth, fmt);
    NewLineWritten(depth - 1, fmt);
    OneBlankWritten(0x09, fmt);
    NothingWritten(depth, fmt);
    var f: seq<byte> := if fmt then [0x0A] else [];
    var b: seq<byte> := if fmt then [0x09] else [];
    var t, u := Tabs(depth, fmt), Tabs(depth - 1, fmt);
    var q, v := Quoted(KeyText(l.key)), PrintValue(l.value, depth, fmt);
    MembersUnfold(l, depth, fmt, f, b);
    if l.rest.Nil? {
      LastJoin(f, t, q, b, v, u);
    } else {
      MembersWritten(l.rest, depth, fmt);
      MoreJoin(f, t, q, b, v, PrintMembers(l.rest, depth, fmt), u);
    }
  }

  lemma MembersUnfold(l: Items, depth: nat, fmt: bool, f: seq<byte>, b: seq<byte>)
    requires l.Cons? && f == (if fmt then [0x0A] else []) && b == (if fmt then [0x09] else [])
    ensures PrintMembers(l, depth, fmt) ==
            (Tabs(depth, fmt) + Quoted(KeyText(l.key)) + ([0x3A] + b)) + PrintValue(l.value, depth, fmt) +
            ((if l.rest.Nil? then [] else [0x2C]) + f) + PrintMembers(l.rest, depth, fmt)
  {
    hide PrintValue, Tabs, Quoted;
  }

  lemma LastJoin(f: seq<byte>, t: seq<byte>, q: seq<byte>, b: seq<byte>, v: seq<byte>, u: seq<byte>)
    ensures (f + t) + q + [] + [0x3A] + b + v + (f + u) == f + ((t + q + ([0x3A] + b)) + v + ([] + f) + []) + u
  {
  }

  lemma MoreJoin(f: seq<byte>, t: seq<byte>, q: seq<byte>, b: seq<byte>, v: seq<byte>, r: seq<byte>, u: seq<byte>)
    ensures ((f + t) + q + [] + [0x3A] + b + v + []) + [0x2C] + (f + r + u) ==
            f + ((t + q + ([0x3A] + b)) + v + ([0x2C] + f) + r) + u
  {
    var p := t + q + [0x3A] + b + v;
    assert (f + t) + q + [] + [0x3A] + b + v + [] == f + p;
    assert (t + q + ([0x3A] + b)) + v == p;
    BehindComma(f, p, r, u);
  }

  lemma BehindComma(f: seq<byte>, p: seq<byte>, r: seq<byte>, u: seq<byte>)
    ensures (f + p) + [0x2C] + (f + r + u) == f + (p + ([0x2C] + f) + r) + u
  {
  }

  // ----- the meaning

  lemma GapsValid(tabs: int, b: byte, fmt: bool)
    requires G.IsSpace(b)
    ensures G.ValidGap(NewLine(tabs, fmt), false) && G.ValidGap(OneBlank(b, fmt), false) && G.ValidGap([], false)
  {
  }

  lemma LeafMeaning(v: Value, depth: nat, fmt: bool)
    requires Printable(v) && !v.Array? && !v.Object?
    ensures G.Valid(Layout(v, depth, fmt), false) && G.Meaning(Layout(v, depth, fmt)) == v
  {
    hide G.ValidNumeral, G.ValidChars, G.NumeralValue, G.CharsMeaning, NumberLayout, CharsLayout;
    match v
    case Number(d) => NumberLaid(d.Floor);
    case String(s) => StringLaid(s);
    case _ =>
  }

  lemma ArrayMeaning(l: Items, depth: nat, fmt: bool)
    requires l.Cons? ==> var es := ElementsLayout(l, [], depth + 1, fmt);
                         G.ValidElements(es, false) && G.ElementsMeaning(es) == l
    ensures var x := Layout(Array(l), depth, fmt); G.Valid(x, false) && G.Meaning(x) == Array(l)
  {
    GapsValid(0, 0x20, fmt);
    hide G.ValidGap, G.ValidElements, G.ElementsMeaning, ElementsLayout;
  }

  lemma ObjectMeaning(l: Items, depth: nat, fmt: bool)
    requires l.Cons? ==> var ms := MembersLayout(l, depth + 1, fmt);
                         G.ValidMembers(ms, false) && G.MembersMeaning(ms) == l
    ensures var x := Layout(Object(l), depth, fmt); G.Valid(x, false) && G.Meaning(x) == Object(l)
  {
    GapsValid(depth - 1, 0x20, fmt);
    hide G.ValidGap, G.ValidMembers, G.MembersMeaning, MembersLayout, NewLine;
  }

  lemma {:induction false} LayoutMeaning(v: Value, depth: nat, fmt: bool)
    requires Printable(v)
    ensures G.Valid(Layout(v, depth, fmt), false) && G.Meaning(Layout(v, depth, fmt)) == v
    decreases v, 1
  {
    hide G.Valid, G.Meaning, Layout, G.ValidElements, G.ElementsMeaning, G.ValidMembers, G.MembersMeaning;
    match v
    case Array(l) =>
      if l.Cons? { ElementsMeant(l, [], depth + 1, fmt); }
      ArrayMeaning(l, depth, fmt);
    case Object(l) =>
      if l.Cons? { MembersMeant(l, depth + 1, fmt); }
      ObjectMeaning(l, depth, fmt);
    case _ => LeafMeaning(v, depth, fmt);
  }

  lemma {:induction false} ElementsMeant(l: Items, before: G.Gap, depth: nat, fmt: bool)
    requires l.Cons? && PrintableItems(l, false) && (before == [] || G.ValidGap(before, false))
    ensures var es := ElementsLayout(l, before, depth, fmt);
            G.ValidElements(es, false) && G.ElementsMeaning(es) == l
    decreases l, 0
  {
    hide G.ValidGap, G.Valid, G.Meaning, Layout, OneBlank;
    GapsValid(0, 0x20, fmt);
    LayoutMeaning(l.value, depth, fmt);
    if l.rest.Cons? { ElementsMeant(l.rest, OneBlank(0x20, fmt), depth, fmt); }
  }

  lemma {:induction false} MembersMeant(l: Items, depth: nat, fmt: bool)
    requires l.Cons? && PrintableItems(l, true)
    ensures var ms := MembersLayout(l, depth, fmt);
            G.ValidMembers(ms, false) && G.MembersMeaning(ms) == l
    decreases l, 0
  {
    hide G.ValidGap, G.Valid, G.Meaning, G.ValidChars, G.CharsMeaning, Layout, OneBlank, NewLine, CharsLayout;
    GapsValid(depth, 0x09, fmt);
    GapsValid(depth - 1, 0x09, fmt);
    StringLaid(KeyText(l.key));
    LayoutMeaning(l.value, depth, fmt);
    if l.rest.Cons? { MembersMeant(l.rest, depth, fmt); }
  }

  /** Every printed text is a JSON text of RFC 8259 that stands for the printed value. */
  lemma PrintedDenotes(v: Value, depth: nat, fmt: bool)
    requires Printable(v)
    ensures G.Denotes(PrintValue(v, depth, fmt), v)
  {
    var d := G.Document([], Layout(v, depth, fmt), []);
    LayoutWritten(v, depth, fmt);
    LayoutMeaning(v, depth, fmt);
    hide G.Written, G.Meaning, G.Valid, Layout, PrintValue;
    NothingWritten(depth, fmt);
    assert G.WrittenDocument(d) == PrintValue(v, depth, fmt);
  }

  /** A text of the grammar stands for one value only. */
  lemma OneMeaning(text: seq<byte>, v: Value, w: Value)
    requires G.Denotes(text, v) && G.Denotes(text, w)
    ensures v == w
  {
    Accepted(text, v);
    Accepted(text, w);
  }
}
