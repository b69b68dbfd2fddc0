/** cJSON_Minify on JSON with blanks and comments between its tokens: the tokens are left. */
module GrammarMinify {
  import opened Bytes
  import opened Parsing
  import opened Minify
  import opened MinifyPrinted
  import opened MinifyClean
  import opened GrammarParse
  import G = Grammar

  // ----- the same tokens with nothing between them

  function Stripped(x: G.Syntax): G.Syntax
    decreases x, 0
  {
    match x
    case EmptyArray(_) => G.EmptyArray([])
    case FullArray(es) => G.FullArray(StrippedElements(es))
    case EmptyObject(_) => G.EmptyObject([])
    case FullObject(ms) => G.FullObject(StrippedMembers(ms))
    case _ => x
  }

  function StrippedElements(es: G.Elements): G.Elements
    decreases es, 1
  {
    var e := G.Element([], Stripped(es.element.value), []);
    match es
    case LastElement(_) => G.LastElement(e)
    case MoreElements(_, others) => G.MoreElements(e, StrippedElements(others))
  }

  function StrippedMembers(ms: G.Members): G.Members
    decreases ms, 1
  {
    var m := G.Member([], ms.member.key, [], [], Stripped(ms.member.value), []);
    match ms
    case LastMember(_) => G.LastMember(m)
    case MoreMembers(_, rest) => G.MoreMembers(m, StrippedMembers(rest))
  }

  lemma {:induction false} StrippedMeaning(x: G.Syntax)
    requires G.Valid(x, true)
    ensures G.Valid(Stripped(x), false) && G.Meaning(Stripped(x)) == G.Meaning(x)
    decreases x, 0
  {
    hide G.ValidElements, G.ValidMembers, G.ElementsMeaning, G.MembersMeaning, StrippedElements, StrippedMembers;
    hide G.ValidNumeral, G.ValidChars, G.NumeralValue, G.CharsMeaning;
    match x
    case FullArray(es) => ElementsMeant(es);
    case FullObject(ms) => MembersMeant(ms);
    case _ =>
  }

  lemma {:induction false} ElementsMeant(es: G.Elements)
    requires G.ValidElements(es, true)
    ensures G.ValidElements(StrippedElements(es), false)
    ensures G.ElementsMeaning(StrippedElements(es)) == G.ElementsMeaning(es)
    decreases es, 1
  {
    hide G.Valid, G.Meaning, Stripped;
    StrippedMeaning(es.element.value);
    if es.MoreElements? { ElementsMeant(es.others); }
  }

  lemma {:induction false} MembersMeant(ms: G.Members)
    requires G.ValidMembers(ms, true)
    ensures G.ValidMembers(StrippedMembers(ms), false)
    ensures G.MembersMeaning(StrippedMembers(ms)) == G.MembersMeaning(ms)
    decreases ms, 1
  {
    hide G.Valid, G.Meaning, Stripped, G.ValidChars, G.CharsMeaning;
    StrippedMeaning(ms.member.value);
    if ms.MoreMembers? { MembersMeant(ms.rest); }
  }

  // ----- gaps

  /** From inside a line comment, its text is skipped up to the line feed. */
  lemma {:induction false} LineSkipped(x: seq<byte>, k: seq<byte>)
    requires forall i :: 0 <= i < |x| ==> x[i] != 0x0A
    ensures AfterLine(x + ([0x0A] + k)) == [0x0A] + k
  {
    if x == [] {
      assert x + ([0x0A] + k) == [0x0A] + k;
    } else {
      assert (x + ([0x0A] + k))[1..] == x[1..] + ([0x0A] + k);
      LineSkipped(x[1..], k);
    }
  }

  /** A text whose first star and slash are its last two bytes. */
  lemma {:induction false} BlockSkipped(w: seq<byte>, k: seq<byte>)
    requires |w| >= 2 && w[|w| - 2] == 0x2A && w[|w| - 1] == 0x2F
    requires forall i :: 0 <= i < |w| - 2 ==> w[i] != 0x2A || w[i + 1] != 0x2F
    ensures AfterBlock(w + k) == Some(k)
  {
    if |w| == 2 {
      assert (w + k)[2..] == k;
    } else {
      assert w[0] != 0x2A || w[1] != 0x2F;
      var r := w[1..];
      assert (w + k)[1..] == r + k;
      forall i | 0 <= i < |r| - 2 ensures r[i] != 0x2A || r[i + 1] != 0x2F {
        assert w[i + 1] != 0x2A || w[i + 2] != 0x2F;
      }
      BlockSkipped(r, k);
    }
  }

  /**
   * The search for the end of a block comment starts at the star that opens it: a comment is
   * dropped as a whole if and only if its text does not start with a slash.
   */
  lemma BlockDroppedIff(x: seq<byte>, k: seq<byte>)
    requires var u := x + [0x2A, 0x2F]; forall i :: 0 <= i < |x| ==> u[i] != 0x2A || u[i + 1] != 0x2F
    ensures AfterBlock([0x2F, 0x2A] + x + [0x2A, 0x2F] + k) == Some(k) <==> x == [] || x[0] != 0x2F
  {
    var u := x + [0x2A, 0x2F];
    var s := [0x2F, 0x2A] + x + [0x2A, 0x2F] + k;
    var w := [0x2A] + u;
    assert s[1..] == w + k && w == [0x2A] + x + [0x2A, 0x2F];
    assert AfterBlock(s) == AfterBlock(s[1..]);
    hide AfterBlock;
    if x != [] && x[0] == 0x2F {
      EndsAtOnce(s[1..]);
    } else {
      forall i | 0 <= i < |w| - 2 ensures w[i] != 0x2A || w[i + 1] != 0x2F { assert i > 0 ==> w[i] == u[i - 1]; }
      BlockSkipped(w, k);
    }
  }

  lemma EndsAtOnce(s: seq<byte>)
    requires |s| >= 2 && s[0] == 0x2A && s[1] == 0x2F
    ensures AfterBlock(s) == Some(s[2..])
  {
  }

  lemma LineGone(x: seq<byte>, k: seq<byte>)
    requires G.ValidTrivia(G.Line(x))
    ensures var s := G.WrittenTrivia(G.Line(x)) + k; Minified(s) == Minified(k) && Closed(s) == Closed(k)
  {
    var s := G.WrittenTrivia(G.Line(x)) + k;
    assert s == [0x2F] + ([0x2F] + (x + ([0x0A] + k)));
    var y := [0x2F] + x;
    assert s[1..] == y + ([0x0A] + k);
    LineSkipped(y, k);
    hide MinifiedString, ClosedString, AfterLine, AfterBlock;
    assert ([0x0A] + k)[1..] == k;
  }

  lemma BlockGone(x: seq<byte>, k: seq<byte>)
    requires G.ValidTrivia(G.Block(x))
    ensures var s := G.WrittenTrivia(G.Block(x)) + k; Minified(s) == Minified(k) && Closed(s) == Closed(k)
  {
    var s := G.WrittenTrivia(G.Block(x)) + k;
    var w := [0x2A] + x + [0x2A, 0x2F];
    assert s == [0x2F] + (w + k) && s[1..] == w + k;
    forall i | 0 <= i < |w| - 2 ensures w[i] != 0x2A || w[i + 1] != 0x2F { }
    BlockSkipped(w, k);
    assert AfterBlock(s) == AfterBlock(s[1..]);
    hide MinifiedString, ClosedString, AfterLine, AfterBlock;
  }

  lemma TriviaGone(t: G.Trivia)
    requires G.ValidTrivia(t)
    ensures Leaves(G.WrittenTrivia(t), [])
  {
    match t
    case Space(b) => LeavesBlank([b]);
    case Line(x) =>
      hide Minified, Closed;
      forall k
        ensures Minified(G.WrittenTrivia(t) + k) == [] + Minified(k) && Closed(G.WrittenTrivia(t) + k) == Closed(k)
      {
        LineGone(x, k);
        assert [] + Minified(k) == Minified(k);
      }
    case Block(x) =>
      hide Minified, Closed;
      forall k
        ensures Minified(G.WrittenTrivia(t) + k) == [] + Minified(k) && Closed(G.WrittenTrivia(t) + k) == Closed(k)
      {
        BlockGone(x, k);
        assert [] + Minified(k) == Minified(k);
      }
  }

  /** Blanks and comments between tokens leave nothing. */
  lemma {:induction false} GapGone(g: G.Gap)
    requires G.ValidGap(g, true)
    ensures Leaves(G.WrittenGap(g), [])
  {
    if g == [] {
      LeavesBlank([]);
    } else {
      hide Leaves;
      TriviaGone(g[0]);
      GapGone(g[1..]);
      LeavesConcat(G.WrittenTrivia(g[0]), [], G.WrittenGap(g[1..]), []);
    }
  }

  // ----- tokens

  ghost predicate NumberBytes(s: seq<byte>) {
    forall i :: 0 <= i < |s| ==> 0x30 <= s[i] <= 0x39 || s[i] in [0x2B, 0x2D, 0x2E, 0x45, 0x65]
  }

  lemma {:induction false} DigitBytes(ds: seq<G.Digit>)
    ensures NumberBytes(G.WrittenDigits(ds))
  {
    if ds != [] { DigitBytes(ds[1..]); }
  }

  lemma ExponentBytes(e: G.Exponent)
    ensures NumberBytes(G.WrittenExponent(e))
  {
    if e.Exponent? { DigitBytes(e.digits); }
    hide G.WrittenDigits;
  }

  lemma FractionBytes(ds: seq<G.Digit>)
    ensures NumberBytes(G.WrittenFraction(ds))
  {
    DigitBytes(ds);
    hide G.WrittenDigits;
  }

  lemma NumberKept(n: G.Numeral)
    ensures Leaves(G.WrittenNumeral(n), G.WrittenNumeral(n))
  {
    DigitBytes(n.whole);
    FractionBytes(n.fraction);
    ExponentBytes(n.exponent);
    hide G.WrittenDigits, Leaves, G.WrittenExponent, G.WrittenFraction;
    LeavesCopied(G.WrittenNumeral(n));
  }

  /** Inside a literal an escape is copied as it stands. */
  lemma PairCopied(b: byte, p: seq<byte>, k: seq<byte>)
    requires forall i :: 0 <= i < |p| ==> p[i] != 0x22 && p[i] != 0x5C
    ensures var e := [0x5C, b] + p;
            MinifiedString(e + k) == e + MinifiedString(k) && ClosedString(e + k) == ClosedString(k)
  {
    hide MinifiedString, ClosedString;
    PlainKept(p, k);
    PairFirst(b, p + k);
    assert [0x5C, b] + p + k == [0x5C, b] + (p + k);
    assert [0x5C, b] + (p + MinifiedString(k)) == [0x5C, b] + p + MinifiedString(k);
  }

  lemma PairFirst(b: byte, r: seq<byte>)
    ensures MinifiedString([0x5C, b] + r) == [0x5C, b] + MinifiedString(r)
    ensures ClosedString([0x5C, b] + r) == ClosedString(r)
  {
    var s := [0x5C, b] + r;
    assert s[2..] == r && s[..2] == [0x5C, b];
    hide Minified, Closed;
  }

  lemma SpelledCopied(e: seq<byte>, u: nat, k: seq<byte>)
    requires G.Spells(e, u)
    ensures MinifiedString(e + k) == e + MinifiedString(k) && ClosedString(e + k) == ClosedString(k)
  {
    SpelledPlain(e, u);
    hide G.Spells;
    assert e == [0x5C, 0x75] + e[2..];
    PairCopied(0x75, e[2..], k);
  }

  lemma SpelledPlain(e: seq<byte>, u: nat)
    requires G.Spells(e, u)
    ensures e[0] == 0x5C && e[1] == 0x75 && forall i :: 2 <= i < |e| ==> e[i] != 0x22 && e[i] != 0x5C
  {
    DigitPlain(e[2], u / 4096);
    DigitPlain(e[3], u / 256 % 16);
    DigitPlain(e[4], u / 16 % 16);
    DigitPlain(e[5], u % 16);
    hide G.SpellsDigit;
  }

  lemma DigitPlain(b: byte, d: nat)
    requires d < 16 && G.SpellsDigit(b, d)
    ensures b != 0x22 && b != 0x5C
  {
  }

  lemma CharCopied(c: G.Char, k: seq<byte>)
    requires G.ValidChar(c)
    ensures var e := G.WrittenChar(c);
            MinifiedString(e + k) == e + MinifiedString(k) && ClosedString(e + k) == ClosedString(k)
  {
    hide MinifiedString, ClosedString, G.Spells;
    match c
    case Raw(b) => PlainKept([b], k);
    case Letter(b) =>
      PairCopied(b, [], k);
      assert [0x5C, b] + [] == [0x5C, b];
    case Point(u, e) => SpelledCopied(e, u, k);
    case Pair(u, e, f) =>
      SpelledCopied(e, 0xD800 + (u - 0x10000) / 0x400, f + k);
      SpelledCopied(f, 0xDC00 + (u - 0x10000) % 0x400, k);
      assert e + f + k == e + (f + k) && e + f + MinifiedString(k) == e + (f + MinifiedString(k));
  }

  lemma {:induction false} CharsCopied(cs: seq<G.Char>, k: seq<byte>)
    requires G.ValidChars(cs)
    ensures var e := G.WrittenChars(cs);
            MinifiedString(e + k) == e + MinifiedString(k) && ClosedString(e + k) == ClosedString(k)
  {
    hide MinifiedString, ClosedString, G.WrittenChar, G.ValidChar;
    if cs == [] {
      assert [] + k == k && [] + MinifiedString(k) == MinifiedString(k);
    } else {
      var e, t := G.WrittenChar(cs[0]), G.WrittenChars(cs[1..]);
      assert e + t + k == e + (t + k);
      CharCopied(cs[0], t + k);
      CharsCopied(cs[1..], k);
      assert e + (t + MinifiedString(k)) == e + t + MinifiedString(k);
    }
  }

  lemma StringCopied(cs: seq<G.Char>, k: seq<byte>)
    requires G.ValidChars(cs)
    ensures var e := G.WrittenString(cs); Minified(e + k) == e + Minified(k) && Closed(e + k) == Closed(k)
  {
    hide G.WrittenChars, AfterLine, AfterBlock;
    var q := [0x22] + k;
    assert (G.WrittenString(cs) + k)[1..] == G.WrittenChars(cs) + q;
    CharsCopied(cs, q);
    assert q[1..] == k;
    assert [0x22] + (G.WrittenChars(cs) + ([0x22] + Minified(k))) == G.WrittenString(cs) + Minified(k);
  }

  lemma StringKept(cs: seq<G.Char>)
    requires G.ValidChars(cs)
    ensures Leaves(G.WrittenString(cs), G.WrittenString(cs))
  {
    var e := G.WrittenString(cs);
    hide Minified, Closed, G.WrittenString;
    forall k ensures Minified(e + k) == e + Minified(k) && Closed(e + k) == Closed(k) { StringCopied(cs, k); }
  }

  // ----- values

  /** A gap, something that leaves b, and a gap. */
  lemma LeavesBetween(g: G.Gap, a: seq<byte>, b: seq<byte>, h: G.Gap)
    requires G.ValidGap(g, true) && G.ValidGap(h, true) && Leaves(a, b)
    ensures Leaves(G.WrittenGap(g) + a + G.WrittenGap(h), b)
  {
    hide Leaves;
    GapGone(g);
    GapGone(h);
    LeavesConcat(G.WrittenGap(g), [], a, b);
    LeavesConcat(G.WrittenGap(g) + a, [] + b, G.WrittenGap(h), []);
    assert [] + b + [] == b;
  }

  /** Brackets or braces around something. */
  lemma LeavesEnclosed(open: byte, a: seq<byte>, b: seq<byte>, close: byte)
    requires open in [0x5B, 0x7B] && close in [0x5D, 0x7D] && Leaves(a, b)
    ensures Leaves([open] + a + [close], [open] + b + [close])
  {
    LeavesCopied([open]);
    LeavesCopied([close]);
    hide Leaves;
    LeavesConcat([open], [open], a, b);
    LeavesConcat([open] + a, [open] + b, [close], [close]);
  }

  lemma LeavesJoined(a: seq<byte>, b: seq<byte>, c: byte, d: seq<byte>, e: seq<byte>)
    requires c in [0x2C, 0x3A] && Leaves(a, b) && Leaves(d, e)
    ensures Leaves(a + [c] + d, b + [c] + e)
  {
    LeavesCopied([c]);
    hide Leaves;
    LeavesConcat(a, b, [c], [c]);
    LeavesConcat(a + [c], b + [c], d, e);
  }

  /** What lies between the tokens goes, and the tokens stay. */
  lemma {:induction false} ValueStripped(x: G.Syntax)
    requires G.Valid(x, true)
    ensures Leaves(G.Written(x), G.Written(Stripped(x)))
    decreases x, 0
  {
    hide Leaves, G.WrittenNumeral, G.WrittenString, G.WrittenGap, G.WrittenElements, G.WrittenMembers;
    match x
    case Number(n) => NumberKept(n);
    case Text(cs) => StringKept(cs);
    case EmptyArray(g) => GapGone(g); NoGap(); LeavesEnclosed(0x5B, G.WrittenGap(g), [], 0x5D);
    case FullArray(es) =>
      ElementsStripped(es);
      LeavesEnclosed(0x5B, G.WrittenElements(es), G.WrittenElements(StrippedElements(es)), 0x5D);
    case EmptyObject(g) => GapGone(g); NoGap(); LeavesEnclosed(0x7B, G.WrittenGap(g), [], 0x7D);
    case FullObject(ms) =>
      MembersStripped(ms);
      LeavesEnclosed(0x7B, G.WrittenMembers(ms), G.WrittenMembers(StrippedMembers(ms)), 0x7D);
    case _ => WordKept(x);
  }

  lemma NoGap()
    ensures G.WrittenGap([]) == []
  {
  }

  lemma WordKept(x: G.Syntax)
    requires x.NullWord? || x.FalseWord? || x.TrueWord?
    ensures Leaves(G.Written(x), G.Written(x))
  {
    LeavesCopied(G.Written(x));
  }

  lemma {:induction false} ElementStripped(e: G.Element)
    requires G.ValidElement(e, true)
    ensures Leaves(G.WrittenElement(e), G.WrittenElement(G.Element([], Stripped(e.value), [])))
    decreases e, 0
  {
    hide Leaves, G.Written, Stripped, G.WrittenGap;
    ValueStripped(e.value);
    LeavesBetween(e.before, G.Written(e.value), G.Written(Stripped(e.value)), e.after);
    NoGap();
    var w := G.Written(Stripped(e.value));
    assert [] + w + [] == w;
  }

  lemma {:induction false} ElementsStripped(es: G.Elements)
    requires G.ValidElements(es, true)
    ensures Leaves(G.WrittenElements(es), G.WrittenElements(StrippedElements(es)))
    decreases es, 1
  {
    hide Leaves, G.WrittenElement, Stripped;
    var e := G.Element([], Stripped(es.element.value), []);
    ElementStripped(es.element);
    if es.MoreElements? {
      ElementsStripped(es.others);
      LeavesJoined(G.WrittenElement(es.element), G.WrittenElement(e), 0x2C,
                   G.WrittenElements(es.others), G.WrittenElements(StrippedElements(es.others)));
    }
  }

  lemma {:induction false} MemberStripped(m: G.Member)
    requires G.ValidMember(m, true)
    ensures Leaves(G.WrittenMember(m), G.WrittenMember(G.Member([], m.key, [], [], Stripped(m.value), [])))
    decreases m, 0
  {
    hide Leaves, G.Written, Stripped, G.WrittenGap, G.WrittenString, G.ValidChars;
    StringKept(m.key);
    ValueStripped(m.value);
    var q, v, w := G.WrittenString(m.key), G.Written(m.value), G.Written(Stripped(m.value));
    LeavesBetween(m.before, q, q, m.behindKey);
    LeavesBetween(m.behindColon, v, w, m.after);
    LeavesJoined(G.WrittenGap(m.before) + q + G.WrittenGap(m.behindKey), q, 0x3A,
                 G.WrittenGap(m.behindColon) + v + G.WrittenGap(m.after), w);
    MemberParts(m);
    NoGap();
    assert [] + q + [] + [0x3A] + [] + w + [] == q + [0x3A] + w;
  }

  lemma MemberParts(m: G.Member)
    ensures G.WrittenMember(m) ==
            (G.WrittenGap(m.before) + G.WrittenString(m.key) + G.WrittenGap(m.behindKey)) + [0x3A] +
            (G.WrittenGap(m.behindColon) + G.Written(m.value) + G.WrittenGap(m.after))
  {
    hide G.Written, G.WrittenGap, G.WrittenString;
  }

  lemma {:induction false} MembersStripped(ms: G.Members)
    requires G.ValidMembers(ms, true)
    ensures Leaves(G.WrittenMembers(ms), G.WrittenMembers(StrippedMembers(ms)))
    decreases ms, 1
  {
    hide Leaves, G.WrittenMember, Stripped, G.ValidMember;
    var m := G.Member([], ms.member.key, [], [], Stripped(ms.member.value), []);
    MemberStripped(ms.member);
    if ms.MoreMembers? {
      MembersStripped(ms.rest);
      LeavesJoined(G.WrittenMember(ms.member), G.WrittenMember(m), 0x2C,
                   G.WrittenMembers(ms.rest), G.WrittenMembers(StrippedMembers(ms.rest)));
    }
  }

  // ----- texts

  /**
   * JSON with comments is minified to its tokens, is a text cJSON_Minify handles, and is then accepted
   * with its value.
   */
  lemma DocumentMinified(d: G.Document)
    requires G.ValidDocument(d, true)
    ensures Minified(G.WrittenDocument(d)) == G.Written(Stripped(d.value)) && Closed(G.WrittenDocument(d))
    ensures G.Denotes(Minified(G.WrittenDocument(d)), G.Meaning(d.value))
    ensures ParseText(Minified(G.WrittenDocument(d))) == Parsed(G.Meaning(d.value), [])
  {
    hide G.Written, G.Valid, G.Meaning, Stripped, Minified, Closed, G.ValidGap, G.WrittenGap, ParseText;
    ValueStripped(d.value);
    var w := G.Written(Stripped(d.value));
    LeavesBetween(d.before, G.Written(d.value), w, d.after);
    var s := G.WrittenDocument(d);
    LeavesAt(s, w, []);
    NothingMinified();
    assert s + [] == s && w + [] == w;
    StrippedMeaning(d.value);
    StrippedDenotes(d.value);
    Accepted(w, G.Meaning(d.value));
  }

  lemma NothingMinified()
    ensures Minified([]) == [] && Closed([])
  {
  }

  lemma StrippedDenotes(x: G.Syntax)
    requires G.Valid(Stripped(x), false)
    ensures G.Denotes(G.Written(Stripped(x)), G.Meaning(Stripped(x)))
  {
    var d := G.Document([], Stripped(x), []);
    hide G.Written, G.Valid, G.Meaning, Stripped;
    assert G.WrittenDocument(d) == [] + G.Written(Stripped(x)) + [];
    assert G.ValidDocument(d, false);
  }

  /** Blanks and comments between the tokens do not matter: the same tokens minify to the same text. */
  lemma GapsDoNotMatter(d: G.Document, e: G.Document)
    requires G.ValidDocument(d, true) && G.ValidDocument(e, true) && Stripped(d.value) == Stripped(e.value)
    ensures Minified(G.WrittenDocument(d)) == Minified(G.WrittenDocument(e))
  {
    DocumentMinified(d);
    DocumentMinified(e);
  }

  lemma {:induction false} StrippedTwice(x: G.Syntax)
    ensures Stripped(Stripped(x)) == Stripped(x)
    decreases x, 0
  {
    match x
    case FullArray(es) => ElementsTwice(es);
    case FullObject(ms) => MembersTwice(ms);
    case _ =>
  }

  lemma {:induction false} ElementsTwice(es: G.Elements)
    ensures StrippedElements(StrippedElements(es)) == StrippedElements(es)
    decreases es, 1
  {
    StrippedTwice(es.element.value);
    if es.MoreElements? { ElementsTwice(es.others); }
  }

  lemma {:induction false} MembersTwice(ms: G.Members)
    ensures StrippedMembers(StrippedMembers(ms)) == StrippedMembers(ms)
    decreases ms, 1
  {
    StrippedTwice(ms.member.value);
    if ms.MoreMembers? { MembersTwice(ms.rest); }
  }

  /** No blank and no comment is left outside the literals of minified JSON. */
  lemma DocumentClean(d: G.Document)
    requires G.ValidDocument(d, true)
    ensures Clean(Minified(G.WrittenDocument(d)))
  {
    hide G.Written, G.Valid, G.Meaning, Stripped, Minified, Closed, G.ValidGap, G.WrittenGap, ParseText;
    DocumentMinified(d);
    StrippedMeaning(d.value);
    G.ValidToo(Stripped(d.value));
    ValueStripped(Stripped(d.value));
    StrippedTwice(d.value);
    var w := G.Written(Stripped(d.value));
    LeavesAt(w, w, []);
    NothingMinified();
    assert w + [] == w;
    FixedIffClean(w);
  }
}
