/** Every text of the grammar is accepted, with the value it stands for. */
module GrammarParse {
  import opened Bytes
  import opened Json
  import opened Unicode
  import opened StringLiteral
  import opened Numbers
  import opened Parsing
  import G = Grammar

  // ----- gaps

  lemma {:induction false} GapSkipped(g: G.Gap, k: seq<byte>)
    requires G.ValidGap(g, false)
    ensures Skip(G.WrittenGap(g) + k) == Skip(k)
    ensures Ends(k) ==> Ends(G.WrittenGap(g) + k)
  {
    if g == [] {
      assert G.WrittenGap(g) + k == k;
    } else {
      var b := g[0].b;
      var rest := G.WrittenGap(g[1..]) + k;
      assert G.ValidTrivia(g[0]);
      assert G.WrittenGap(g) + k == [b] + rest && ([b] + rest)[1..] == rest;
      GapSkipped(g[1..], k);
    }
  }

  // ----- numbers

  lemma Distribute(a: nat, d: nat, t: nat)
    ensures (a * 10 + d) * t == a * (10 * t) + d * t
  {
  }

  lemma {:induction false} NaturalFront(d: G.Digit, ds: seq<G.Digit>)
    ensures G.Natural([d] + ds) == d * G.Ten(|ds|) + G.Natural(ds)
  {
    if ds == [] {
      assert [d] + ds == [d] && [d][..0] == [];
    } else {
      var n := |ds| - 1;
      assert ([d] + ds)[..|ds|] == [d] + ds[..n];
      NaturalFront(d, ds[..n]);
      assert d * G.Ten(n + 1) == 10 * (d * G.Ten(n));
    }
  }

  predicate NoDigit(k: seq<byte>) { k == [] || !IsDigit(k[0]) }

  lemma DigitsHead(ds: seq<G.Digit>, k: seq<byte>)
    ensures ds == [] ==> G.WrittenDigits(ds) + k == k
    ensures ds != [] ==>
              var s := G.WrittenDigits(ds) + k;
              s != [] && s[0] == G.DigitByte(ds[0]) && IsDigit(s[0]) && s[0] - 0x30 == ds[0] &&
              (s[0] == 0x30 <==> ds[0] == 0) && s[1..] == G.WrittenDigits(ds[1..]) + k
  {
    if ds == [] {
      assert G.WrittenDigits(ds) + k == k;
    } else {
      var b, r := G.DigitByte(ds[0]), G.WrittenDigits(ds[1..]);
      assert G.WrittenDigits(ds) == [b] + r;
      hide G.WrittenDigits;
      FirstByte(b, r, k);
    }
  }

  lemma FirstByte(b: byte, r: seq<byte>, k: seq<byte>)
    ensures var s := [b] + r + k; s[0] == b && s[1..] == r + k
  {
  }

  lemma DigitsStep(s: seq<byte>, acc: nat)
    requires s != [] && IsDigit(s[0])
    ensures var r := Digits(s[1..], acc * 10 + (s[0] - 0x30)); Digits(s, acc) == Run(r.acc, r.count + 1, r.rest)
  {
  }

  lemma {:induction false} DigitsRead(ds: seq<G.Digit>, k: seq<byte>, acc: nat)
    requires NoDigit(k)
    ensures Digits(G.WrittenDigits(ds) + k, acc) == Run(acc * G.Ten(|ds|) + G.Natural(ds), |ds|, k)
  {
    DigitsHead(ds, k);
    if ds != [] {
      hide G.WrittenDigits, G.Natural, G.DigitByte;
      DigitsStep(G.WrittenDigits(ds) + k, acc);
      hide Digits;
      DigitsRead(ds[1..], k, acc * 10 + ds[0]);
      Distribute(acc, ds[0], G.Ten(|ds| - 1));
      assert ds == [ds[0]] + ds[1..];
      NaturalFront(ds[0], ds[1..]);
    }
  }

  lemma {:induction false} NaturalJoin(a: seq<G.Digit>, b: seq<G.Digit>)
    ensures G.Natural(a + b) == G.Natural(a) * G.Ten(|b|) + G.Natural(b)
  {
    if b == [] {
      assert a + b == a;
    } else {
      var n := |b| - 1;
      assert (a + b)[..|a + b| - 1] == a + b[..n];
      NaturalLast(a + b);
      NaturalLast(b);
      NaturalJoin(a, b[..n]);
      hide G.Natural;
      ShiftLeft(G.Natural(a), G.Ten(n), G.Natural(b[..n]), b[n]);
    }
  }

  lemma NaturalLast(ds: seq<G.Digit>)
    requires ds != []
    ensures G.Natural(ds) == 10 * G.Natural(ds[..|ds| - 1]) + ds[|ds| - 1]
  {
  }

  lemma ShiftLeft(x: nat, t: nat, y: nat, d: nat)
    ensures 10 * (x * t + y) + d == x * (10 * t) + (10 * y + d)
  {
  }

  lemma WholeRead(ds: seq<G.Digit>, k: seq<byte>)
    requires ds != [] && (ds[0] == 0 ==> |ds| == 1) && NoDigit(k)
    ensures var i := IntegerPart(G.WrittenDigits(ds) + k); i.acc == G.Natural(ds) && i.rest == k
  {
    DigitsHead(ds, k);
    if ds[0] == 0 {
      assert ds[1..] == [];
      DigitsHead([], k);
      assert G.Natural(ds) == 0 by { NaturalLast(ds); assert ds[..0] == []; }
      hide G.WrittenDigits, G.Natural, Digits, G.DigitByte;
    } else {
      DigitsRead(ds, k, 0);
      hide G.WrittenDigits, G.Natural, Digits, G.DigitByte, G.Ten;
    }
  }

  lemma FractionRead(ds: seq<G.Digit>, k: seq<byte>, acc: nat)
    requires NoDigit(k) && !Starts(k, DOT)
    ensures FractionPart(G.WrittenFraction(ds) + k, acc) == Run(acc * G.Ten(|ds|) + G.Natural(ds), |ds|, k)
  {
    if ds == [] {
      assert G.WrittenFraction(ds) + k == k;
      hide G.Natural, G.Ten;
      NoFraction(k, acc);
      NothingRead(acc);
    } else {
      var d := G.WrittenDigits(ds) + k;
      assert G.WrittenFraction(ds) + k == [0x2E] + d;
      hide G.WrittenDigits, G.WrittenFraction, G.Natural, G.DigitByte, G.Ten;
      DigitsHead(ds, k);
      FractionStep(d, acc);
      DigitsRead(ds, k, acc);
    }
  }

  lemma NothingRead(acc: nat)
    ensures acc * G.Ten(0) + G.Natural([]) == acc
  {
  }

  lemma NoFraction(k: seq<byte>, acc: nat)
    requires !Starts(k, DOT)
    ensures FractionPart(k, acc) == Run(acc, 0, k)
  {
  }

  lemma FractionStep(d: seq<byte>, acc: nat)
    requires d != [] && IsDigit(d[0])
    ensures FractionPart([0x2E] + d, acc) == Digits(d, acc)
  {
    hide Digits;
    assert ([0x2E] + d)[1..] == d;
  }

  lemma ExponentRead(e: G.Exponent, k: seq<byte>)
    requires Ends(k) && (e.Exponent? ==> e.digits != [])
    ensures ExponentPart(G.WrittenExponent(e) + k) == Exponent(G.ExponentValue(e), k)
    ensures NoDigit(G.WrittenExponent(e) + k) && !Starts(G.WrittenExponent(e) + k, DOT)
  {
    hide G.WrittenDigits, G.Natural, Digits, G.DigitByte, G.Ten;
    match e
    case NoExponent => assert G.WrittenExponent(e) + k == k;
    case Exponent(upper, sign, ds) =>
      var d := G.WrittenDigits(ds) + k;
      DigitsHead(ds, k);
      DigitsRead(ds, k, 0);
      var l: byte := if upper then 0x45 else 0x65;
      var m: seq<byte> := match sign case NoSign => [] case Plus => [0x2B] case Minus => [0x2D];
      assert G.WrittenExponent(e) + k == [l] + (m + d);
      hide G.WrittenExponent;
      ExponentStep(l, m, d);
  }

  lemma ExponentStep(l: byte, m: seq<byte>, d: seq<byte>)
    requires (l == 0x45 || l == 0x65) && (m == [] || m == [0x2B] || m == [0x2D]) && d != [] && IsDigit(d[0])
    ensures var r := Digits(d, 0);
            ExponentPart([l] + (m + d)) == Exponent(if m == [0x2D] then 0 - r.acc else r.acc, r.rest)
  {
    hide Digits;
    var t := m + d;
    assert ([l] + t)[1..] == t;
    if m == [] { assert t == d; } else { assert t[1..] == d; }
  }

  lemma {:induction false} PowerIsTen(e: int)
    ensures e >= 0 ==> Pow10(e) == G.Ten(e) as real
    ensures e < 0 ==> Pow10(e) * G.Ten(-e) as real == 1.0
    decreases if e < 0 then -e else e
  {
    if e > 0 {
      PowerIsTen(e - 1);
    } else if e < 0 {
      PowerIsTen(e + 1);
      var p, t := Pow10(e + 1), G.Ten(-e - 1);
      assert G.Ten(-e) == 10 * t;
      assert (10 * t) as real == 10.0 * t as real;
      assert p / 10.0 * (10.0 * t as real) == p * t as real;
    }
  }

  lemma ScaledIs(x: int, e: int)
    ensures x as real * Pow10(e) == G.Scaled(x, e)
  {
    PowerIsTen(e);
    if e >= 0 {
      assert (x * G.Ten(e)) as real == x as real * G.Ten(e) as real;
    } else {
      Quotient(x as real, Pow10(e), G.Ten(-e) as real);
    }
  }

  lemma Quotient(x: real, p: real, t: real)
    requires p * t == 1.0 && t != 0.0
    ensures x * p == x / t
  {
    assert x * p * t == x * (p * t) == x;
    assert x / t * t == x;
    assert (x * p - x / t) * t == 0.0;
  }

  /** A numeral is read as its digits without the dot, scaled by its exponent and its fraction. */
  lemma NumeralRead(n: G.Numeral, k: seq<byte>)
    requires G.ValidNumeral(n) && Ends(k)
    ensures StartsNumber(G.WrittenNumeral(n) + k)
    ensures ParseNumber(G.WrittenNumeral(n) + k) == Numeral(G.NumeralValue(n), k)
  {
    hide G.WrittenDigits, G.WrittenFraction, G.WrittenExponent, G.Natural, G.Scaled, G.ExponentValue, G.DigitByte;
    hide G.Ten;
    hide IntegerPart, FractionPart, ExponentPart, Pow10;
    var e := G.WrittenExponent(n.exponent) + k;
    var f := G.WrittenFraction(n.fraction) + e;
    var w := G.WrittenDigits(n.whole) + f;
    var s := G.WrittenNumeral(n) + k;
    DigitsHead(n.whole, f);
    SignFirst(n, k, w);
    ExponentRead(n.exponent, k);
    FractionHead(n.fraction, e);
    WholeRead(n.whole, f);
    FractionRead(n.fraction, e, G.Natural(n.whole));
    NaturalJoin(n.whole, n.fraction);
    var m: int := G.Natural(n.whole + n.fraction);
    ScaledIs(if n.minus then 0 - m else m, G.ExponentValue(n.exponent) - |n.fraction|);
  }

  lemma SignFirst(n: G.Numeral, k: seq<byte>, w: seq<byte>)
    requires w == G.WrittenDigits(n.whole) + (G.WrittenFraction(n.fraction) + (G.WrittenExponent(n.exponent) + k))
    requires w != [] && IsDigit(w[0])
    ensures var s := G.WrittenNumeral(n) + k; StartsNumber(s) && DropIf(s, MINUS) == w && Starts(s, MINUS) == n.minus
  {
    hide G.WrittenDigits, G.WrittenFraction, G.WrittenExponent;
    var s := G.WrittenNumeral(n) + k;
    if n.minus {
      assert s == [0x2D] + w && s[1..] == w;
    } else {
      assert s == w;
    }
  }

  lemma FractionHead(ds: seq<G.Digit>, k: seq<byte>)
    requires NoDigit(k)
    ensures NoDigit(G.WrittenFraction(ds) + k)
  {
    if ds == [] { assert G.WrittenFraction(ds) + k == k; }
  }

  // ----- strings

  lemma CharRead(c: G.Char, k: seq<byte>)
    requires G.ValidChar(c) && DecodeBody(k).Decoded?
    ensures DecodeBody(G.WrittenChar(c) + k) == Decoded(G.CharMeaning(c) + DecodeBody(k).text, DecodeBody(k).rest)
  {
    match c
    case Raw(b) =>
      RawTurn(b, k);
      OneTurn([b], k);
    case Letter(b) =>
      LetterTurn(b, k);
      OneTurn([0x5C, b], k);
    case Point(u, e) =>
      hide DecodeBody, G.Spells, Utf8;
      EscapeDecodes(u, e, k);
    case Pair(u, e, f) =>
      PairIsEscape(u, e, f);
      hide DecodeBody, G.Spells, Utf8, IsEscapeOf;
      EscapeDecodes(u, e + f, k);
  }

  lemma PairIsEscape(u: G.CodePoint, e: seq<byte>, f: seq<byte>)
    requires G.ValidChar(G.Pair(u, e, f))
    ensures IsEscapeOf(e + f, u)
  {
    hide G.SpellsDigit;
    assert (e + f)[..6] == e && (e + f)[6..] == f && |e + f| == 12;
  }

  lemma RawTurn(b: byte, k: seq<byte>)
    requires b >= 0x20 && b != 0x22 && b != 0x5C
    ensures ([b] + k)[0] != QUOTE && DecodeTurn([b] + k) == Turn([b], 1)
  {
  }

  lemma LetterTurn(b: byte, k: seq<byte>)
    requires G.IsLetter(b)
    ensures ([0x5C, b] + k)[0] != QUOTE && DecodeTurn([0x5C, b] + k) == Turn([G.LetterMeaning(b)], 2)
  {
  }

  lemma OneTurn(e: seq<byte>, k: seq<byte>)
    requires e != [] && e[0] != QUOTE && DecodeTurn(e + k).Turn? && DecodeTurn(e + k).len == |e| &&
             DecodeBody(k).Decoded?
    ensures DecodeBody(e + k) == Decoded(DecodeTurn(e + k).out + DecodeBody(k).text, DecodeBody(k).rest)
  {
    hide DecodeTurn;
    assert (e + k)[|e|..] == k;
  }

  lemma {:induction false} CharsRead(cs: seq<G.Char>, k: seq<byte>)
    requires G.ValidChars(cs)
    ensures DecodeBody(G.WrittenChars(cs) + ([0x22] + k)) == Decoded(G.CharsMeaning(cs), k)
  {
    hide G.WrittenChar, G.CharMeaning, G.ValidChar;
    if cs == [] {
      assert G.WrittenChars(cs) + ([0x22] + k) == [0x22] + k;
    } else {
      var rest := G.WrittenChars(cs[1..]) + ([0x22] + k);
      assert G.WrittenChars(cs) + ([0x22] + k) == G.WrittenChar(cs[0]) + rest;
      CharsRead(cs[1..], k);
      hide DecodeBody;
      CharRead(cs[0], rest);
    }
  }

  lemma StringRead(cs: seq<G.Char>, k: seq<byte>)
    requires G.ValidChars(cs)
    ensures var s := G.WrittenString(cs) + k;
            Starts(s, QUOTE) && DecodeBody(s[1..]) == Decoded(G.CharsMeaning(cs), k)
  {
    assert (G.WrittenString(cs) + k)[1..] == G.WrittenChars(cs) + ([0x22] + k);
    CharsRead(cs, k);
  }

  // ----- values

  /** A value starts with a visible byte that closes nothing. */
  lemma ValueHead(x: G.Syntax, k: seq<byte>)
    requires G.Valid(x, false)
    ensures var s := G.Written(x) + k;
            s != [] && s[0] > SPACE && s[0] != RBRACKET && s[0] != RBRACE && Skip(s) == s
  {
    hide G.WrittenFraction, G.WrittenExponent, G.WrittenElements, G.WrittenMembers, G.WrittenGap, G.WrittenChars;
    match x
    case Number(n) => assert G.Written(x)[0] == if n.minus then 0x2D else G.DigitByte(n.whole[0]);
    case _ =>
  }

  lemma WordRead(x: G.Syntax, k: seq<byte>)
    requires x.NullWord? || x.FalseWord? || x.TrueWord?
    ensures ParseValue(G.Written(x) + k) == Parsed(G.Meaning(x), k)
  {
  }

  lemma {:induction false} ValueRead(x: G.Syntax, k: seq<byte>)
    requires G.Valid(x, false) && Ends(k)
    ensures ParseValue(G.Written(x) + k) == Parsed(G.Meaning(x), k)
    decreases x, 0
  {
    hide ParseValue, ParseElems, ParseMembers, Skip, DecodeBody, ParseNumber;
    hide G.WrittenNumeral, G.NumeralValue, G.WrittenString, G.WrittenGap, G.WrittenElements, G.WrittenMembers;
    var s := G.Written(x) + k;
    match x
    case Number(n) =>
      NumeralRead(n, k);
      Dispatch(s);
    case Text(cs) =>
      StringRead(cs, k);
      TextDispatch(s);
    case EmptyArray(g) =>
      assert s == [0x5B] + (G.WrittenGap(g) + ([0x5D] + k));
      GapSkipped(g, [0x5D] + k);
      EmptyArrayRead(G.WrittenGap(g) + ([0x5D] + k), k);
    case FullArray(es) =>
      assert s == [0x5B] + (G.WrittenElements(es) + ([0x5D] + k));
      ElementsRead(es, k);
      ArrayRead(G.WrittenElements(es) + ([0x5D] + k), G.ElementsMeaning(es), k);
    case EmptyObject(g) =>
      assert s == [0x7B] + (G.WrittenGap(g) + ([0x7D] + k));
      GapSkipped(g, [0x7D] + k);
      EmptyObjectRead(G.WrittenGap(g) + ([0x7D] + k), k);
    case FullObject(ms) =>
      assert s == [0x7B] + (G.WrittenMembers(ms) + ([0x7D] + k));
      MembersRead(ms, k);
      ObjectRead(G.WrittenMembers(ms) + ([0x7D] + k), G.MembersMeaning(ms), k);
    case _ => WordRead(x, k);
  }

  lemma TextDispatch(s: seq<byte>)
    requires Starts(s, QUOTE) && DecodeBody(s[1..]).Decoded?
    ensures ParseValue(s) == Parsed(String(DecodeBody(s[1..]).text), DecodeBody(s[1..]).rest)
  {
    hide DecodeBody;
  }

  lemma EmptyArrayRead(t: seq<byte>, k: seq<byte>)
    requires Skip(t) == Skip([0x5D] + k)
    ensures ParseValue([0x5B] + t) == Parsed(Array(Nil), k)
  {
    hide ParseElems;
    Dispatch([0x5B] + t);
    assert ([0x5B] + t)[1..] == t && ([0x5D] + k)[1..] == k;
    hide ParseValue;
  }

  lemma EmptyObjectRead(t: seq<byte>, k: seq<byte>)
    requires Skip(t) == Skip([0x7D] + k)
    ensures ParseValue([0x7B] + t) == Parsed(Object(Nil), k)
  {
    hide ParseMembers;
    Dispatch([0x7B] + t);
    assert ([0x7B] + t)[1..] == t && ([0x7D] + k)[1..] == k;
    hide ParseValue;
  }

  /** Items are read from the first visible byte on. */
  lemma FromSkip(t: seq<byte>)
    ensures ParseElems(Skip(t)) == ParseElems(t) && ParseMembers(Skip(t)) == ParseMembers(t)
  {
    hide ParseValue, DecodeBody;
    assert Skip(Skip(t)) == Skip(t);
  }

  lemma ArrayRead(t: seq<byte>, l: Items, k: seq<byte>)
    requires !Starts(Skip(t), RBRACKET) && ParseElems(t) == ParsedItems(l, k)
    ensures ParseValue([0x5B] + t) == Parsed(Array(l), k)
  {
    FromSkip(t);
    hide ParseElems;
    Dispatch([0x5B] + t);
    assert ([0x5B] + t)[1..] == t;
    hide ParseValue;
  }

  lemma ObjectRead(t: seq<byte>, l: Items, k: seq<byte>)
    requires !Starts(Skip(t), RBRACE) && ParseMembers(t) == ParsedItems(l, k)
    ensures ParseValue([0x7B] + t) == Parsed(Object(l), k)
  {
    FromSkip(t);
    hide ParseMembers;
    Dispatch([0x7B] + t);
    assert ([0x7B] + t)[1..] == t;
    hide ParseValue;
  }

  // ----- elements

  lemma ElementStep(t: seq<byte>, v: Value, y: seq<byte>, z: seq<byte>, l: Items, k: seq<byte>)
    requires ParseValue(Skip(t)) == Parsed(v, y) && Skip(y) == z
    requires if l.Nil? then z == [0x5D] + k else Starts(z, 0x2C) && ParseElems(z[1..]) == ParsedItems(l, k)
    ensures ParseElems(t) == ParsedItems(Cons(None, v, l), k)
  {
    hide ParseValue;
    if l.Nil? { assert z[1..] == k; }
  }

  /** One element, in front of the text z. */
  lemma {:induction false} ElementRead(e: G.Element, z: seq<byte>)
    requires G.ValidElement(e, false) && Ends(z) && Skip(z) == z
    ensures var t := G.WrittenElement(e) + z; var y := G.WrittenGap(e.after) + z;
            ParseValue(Skip(t)) == Parsed(G.Meaning(e.value), y) && Skip(y) == z && !Starts(Skip(t), RBRACKET)
    decreases e, 0
  {
    hide G.WrittenGap, G.Written, G.Meaning, ParseValue, Skip;
    var y := G.WrittenGap(e.after) + z;
    GapSkipped(e.after, z);
    assert G.WrittenElement(e) + z == G.WrittenGap(e.before) + (G.Written(e.value) + y);
    GapSkipped(e.before, G.Written(e.value) + y);
    ValueHead(e.value, y);
    ValueRead(e.value, y);
  }

  lemma {:induction false} ElementsRead(es: G.Elements, k: seq<byte>)
    requires G.ValidElements(es, false)
    ensures var t := G.WrittenElements(es) + ([0x5D] + k);
            ParseElems(t) == ParsedItems(G.ElementsMeaning(es), k) && !Starts(Skip(t), RBRACKET)
    decreases es, 1
  {
    hide G.WrittenElement, G.Meaning, ParseValue, ParseElems, G.WrittenGap;
    var e := es.element;
    match es
    case LastElement(_) =>
      var z := [0x5D] + k;
      ElementRead(e, z);
      ElementStep(G.WrittenElements(es) + z, G.Meaning(e.value), G.WrittenGap(e.after) + z, z, Nil, k);
    case MoreElements(_, others) =>
      var u := G.WrittenElements(others) + ([0x5D] + k);
      var z := [0x2C] + u;
      assert G.WrittenElements(es) + ([0x5D] + k) == G.WrittenElement(e) + z && z[1..] == u;
      hide G.WrittenElements;
      ElementsRead(others, k);
      ElementRead(e, z);
      ElementStep(G.WrittenElement(e) + z, G.Meaning(e.value), G.WrittenGap(e.after) + z, z,
                  G.ElementsMeaning(others), k);
  }

  // ----- members

  lemma MemberStep(t: seq<byte>, name: seq<byte>, w: seq<byte>, v: Value, y: seq<byte>, z: seq<byte>, l: Items,
                   k: seq<byte>)
    requires Starts(Skip(t), QUOTE) && DecodeBody(Skip(t)[1..]) == Decoded(name, w)
    requires Starts(Skip(w), 0x3A) && ParseValue(Skip(Skip(w)[1..])) == Parsed(v, y) && Skip(y) == z
    requires if l.Nil? then z == [0x7D] + k else Starts(z, 0x2C) && ParseMembers(z[1..]) == ParsedItems(l, k)
    ensures ParseMembers(t) == ParsedItems(Cons(Some(name), v, l), k)
  {
    hide ParseValue, DecodeBody;
    if l.Nil? { assert z[1..] == k; }
  }

  /** One member, in front of the text z: what is left behind the key, and behind the value. */
  lemma {:induction false} MemberRead(m: G.Member, z: seq<byte>)
    requires G.ValidMember(m, false) && Ends(z) && Skip(z) == z
    ensures var t := G.WrittenMember(m) + z; var y := G.WrittenGap(m.after) + z;
            var u := G.WrittenGap(m.behindColon) + (G.Written(m.value) + y);
            var w := G.WrittenGap(m.behindKey) + ([0x3A] + u);
            Starts(Skip(t), QUOTE) && DecodeBody(Skip(t)[1..]) == Decoded(G.CharsMeaning(m.key), w) &&
            Starts(Skip(w), 0x3A) && ParseValue(Skip(Skip(w)[1..])) == Parsed(G.Meaning(m.value), y) && Skip(y) == z
    decreases m, 1
  {
    hide G.WrittenGap, G.Written, G.Meaning, ParseValue, DecodeBody, G.WrittenString, G.CharsMeaning, Skip;
    var y := G.WrittenGap(m.after) + z;
    var u := G.WrittenGap(m.behindColon) + (G.Written(m.value) + y);
    var w := G.WrittenGap(m.behindKey) + ([0x3A] + u);
    BehindKey(m, z);
    StringRead(m.key, w);
    KeyHead(G.WrittenString(m.key) + w);
    assert G.WrittenMember(m) + z == G.WrittenGap(m.before) + (G.WrittenString(m.key) + w);
    hide G.WrittenMember;
    GapSkipped(m.before, G.WrittenString(m.key) + w);
  }

  lemma KeyHead(s: seq<byte>)
    requires Starts(s, QUOTE)
    ensures Skip(s) == s
  {
  }

  lemma {:induction false} BehindKey(m: G.Member, z: seq<byte>)
    requires G.ValidMember(m, false) && Ends(z) && Skip(z) == z
    ensures var y := G.WrittenGap(m.after) + z;
            var u := G.WrittenGap(m.behindColon) + (G.Written(m.value) + y);
            var w := G.WrittenGap(m.behindKey) + ([0x3A] + u);
            Starts(Skip(w), 0x3A) && ParseValue(Skip(Skip(w)[1..])) == Parsed(G.Meaning(m.value), y) && Skip(y) == z
    decreases m, 0
  {
    var y := G.WrittenGap(m.after) + z;
    var u := G.WrittenGap(m.behindColon) + (G.Written(m.value) + y);
    assert Skip([0x3A] + u) == [0x3A] + u && ([0x3A] + u)[1..] == u;
    hide G.WrittenGap, G.Written, G.Meaning, ParseValue, Skip;
    GapSkipped(m.after, z);
    GapSkipped(m.behindColon, G.Written(m.value) + y);
    ValueHead(m.value, y);
    ValueRead(m.value, y);
    GapSkipped(m.behindKey, [0x3A] + u);
  }

  lemma {:induction false} MembersRead(ms: G.Members, k: seq<byte>)
    requires G.ValidMembers(ms, false)
    ensures var t := G.WrittenMembers(ms) + ([0x7D] + k);
            ParseMembers(t) == ParsedItems(G.MembersMeaning(ms), k) && !Starts(Skip(t), RBRACE)
    decreases ms, 1
  {
    hide G.WrittenMember, G.Meaning, ParseValue, ParseMembers, G.WrittenGap, DecodeBody, G.Written, G.CharsMeaning;
    var m := ms.member;
    match ms
    case LastMember(_) =>
      var z := [0x7D] + k;
      MemberRead(m, z);
      MemberEndsIn(m, ms, z, Nil, k);
    case MoreMembers(_, rest) =>
      var u := G.WrittenMembers(rest) + ([0x7D] + k);
      var z := [0x2C] + u;
      assert G.WrittenMembers(ms) + ([0x7D] + k) == G.WrittenMember(m) + z && z[1..] == u;
      hide G.WrittenMembers;
      MembersRead(rest, k);
      MemberRead(m, z);
      MemberEndsIn(m, ms, z, G.MembersMeaning(rest), k);
  }

  lemma {:induction false} MemberEndsIn(m: G.Member, ms: G.Members, z: seq<byte>, l: Items, k: seq<byte>)
    requires G.ValidMember(m, false) && Ends(z) && Skip(z) == z
    requires if l.Nil? then z == [0x7D] + k else Starts(z, 0x2C) && ParseMembers(z[1..]) == ParsedItems(l, k)
    ensures ParseMembers(G.WrittenMember(m) + z)
            == ParsedItems(Cons(Some(G.CharsMeaning(m.key)), G.Meaning(m.value), l), k)
    decreases m, 2
  {
    MemberRead(m, z);
    hide G.WrittenMember, G.Meaning, ParseValue, ParseMembers, G.WrittenGap, DecodeBody, G.Written, G.CharsMeaning;
    hide Skip;
    var y := G.WrittenGap(m.after) + z;
    var u := G.WrittenGap(m.behindColon) + (G.Written(m.value) + y);
    var w := G.WrittenGap(m.behindKey) + ([0x3A] + u);
    MemberStep(G.WrittenMember(m) + z, G.CharsMeaning(m.key), w, G.Meaning(m.value), y, z, l, k);
  }

  // ----- texts

  /** Every JSON text of RFC 8259 is accepted with its value, and nothing of it is left over. */
  lemma Accepted(text: seq<byte>, v: Value)
    requires G.Denotes(text, v)
    ensures ParseText(text) == Parsed(v, [])
  {
    var d: G.Document :| G.ValidDocument(d, false) && G.WrittenDocument(d) == text && G.Meaning(d.value) == v;
    DocumentRead(d, []);
    assert text + [] == text && G.WrittenGap(d.after) + [] == G.WrittenGap(d.after);
    GapSkipped(d.after, []);
    hide ParseValue, G.WrittenDocument, G.Meaning;
  }

  /** A text in front of anything that cannot continue a number. */
  lemma DocumentRead(d: G.Document, k: seq<byte>)
    requires G.ValidDocument(d, false) && Ends(k)
    ensures ParseValue(Skip(G.WrittenDocument(d) + k)) == Parsed(G.Meaning(d.value), G.WrittenGap(d.after) + k)
  {
    hide G.WrittenGap, G.Written, G.Meaning, ParseValue, Skip;
    var y := G.WrittenGap(d.after) + k;
    GapSkipped(d.after, k);
    assert G.WrittenDocument(d) + k == G.WrittenGap(d.before) + (G.Written(d.value) + y);
    GapSkipped(d.before, G.Written(d.value) + y);
    ValueHead(d.value, y);
    ValueRead(d.value, y);
  }

  /** With null termination required, anything visible behind the value is refused. */
  lemma TrailingRejected(d: G.Document, k: seq<byte>)
    requires G.ValidDocument(d, false) && Ends(k) && Skip(k) != []
    ensures ParseText(G.WrittenDocument(d) + k) == Reject
  {
    DocumentRead(d, k);
    GapSkipped(d.after, k);
    hide ParseValue, G.WrittenDocument, G.Meaning, Skip;
  }
}
