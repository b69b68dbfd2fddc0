/**
 * JSON texts by the grammar of RFC 8259: syntax trees, how they are written byte by byte, and
 * what they stand for. Comments, which the grammar does not have, may stand wherever blanks may;
 * a tree is JSON if it has none.
 */
module Grammar {
  import opened Bytes
  import opened Json
  import opened Unicode

  // ----- between the tokens (section 2)

  datatype Trivia = Space(b: byte) | Line(text: seq<byte>) | Block(text: seq<byte>)

  type Gap = seq<Trivia>

  /** Space, horizontal tab, line feed or carriage return. */
  predicate IsSpace(b: byte) { b == 0x20 || b == 0x09 || b == 0x0A || b == 0x0D }

  /**
   * A comment ends where it should: a line comment at the first line feed, a block comment at the first
   * star and slash.
   */
  predicate ValidTrivia(t: Trivia) {
    match t
    case Space(b) => IsSpace(b)
    case Line(x) => forall i :: 0 <= i < |x| ==> x[i] != 0x0A
    case Block(x) =>
      var w := [0x2A] + x + [0x2A, 0x2F];
      forall i :: 0 <= i <= |x| ==> w[i] != 0x2A || w[i + 1] != 0x2F
  }

  predicate ValidGap(g: Gap, comments: bool) {
    forall i :: 0 <= i < |g| ==> ValidTrivia(g[i]) && (comments || g[i].Space?)
  }

  function WrittenTrivia(t: Trivia): seq<byte> {
    match t
    case Space(b) => [b]
    case Line(x) => [0x2F, 0x2F] + x + [0x0A]
    case Block(x) => [0x2F, 0x2A] + x + [0x2A, 0x2F]
  }

  function WrittenGap(g: Gap): seq<byte> {
    if g == [] then [] else WrittenTrivia(g[0]) + WrittenGap(g[1..])
  }

  // ----- numbers (section 6)

  type Digit = d: nat | d < 10

  datatype Sign = NoSign | Plus | Minus

  datatype Exponent = NoExponent | Exponent(upper: bool, sign: Sign, digits: seq<Digit>)

  /** An empty fraction is none. */
  datatype Numeral = Numeral(minus: bool, whole: seq<Digit>, fraction: seq<Digit>, exponent: Exponent)

  predicate ValidNumeral(n: Numeral) {
    n.whole != [] && (n.whole[0] == 0 ==> |n.whole| == 1) &&
    (n.exponent.Exponent? ==> n.exponent.digits != [])
  }

  function DigitByte(d: Digit): byte {
    var n: int := d;
    0x30 + n
  }

  function WrittenDigits(ds: seq<Digit>): seq<byte> {
    if ds == [] then [] else [DigitByte(ds[0])] + WrittenDigits(ds[1..])
  }

  function WrittenFraction(ds: seq<Digit>): seq<byte> {
    if ds == [] then [] else [0x2E] + WrittenDigits(ds)
  }

  function WrittenExponent(e: Exponent): seq<byte> {
    match e
    case NoExponent => []
    case Exponent(upper, sign, ds) =>
      [if upper then 0x45 else 0x65] +
      (match sign case NoSign => [] case Plus => [0x2B] case Minus => [0x2D]) + WrittenDigits(ds)
  }

  function WrittenNumeral(n: Numeral): seq<byte> {
    (if n.minus then [0x2D] else []) + WrittenDigits(n.whole) + WrittenFraction(n.fraction) +
    WrittenExponent(n.exponent)
  }

  /** The number that a row of decimal digits denotes. */
  function Natural(ds: seq<Digit>): nat {
    if ds == [] then 0 else 10 * Natural(ds[..|ds| - 1]) + ds[|ds| - 1]
  }

  /** Ten to the power of n. */
  function Ten(n: nat): (t: nat)
    ensures t > 0
  {
    if n == 0 then 1 else 10 * Ten(n - 1)
  }

  /** x times ten to the power of e. */
  function Scaled(x: int, e: int): real {
    if e >= 0 then (x * Ten(e)) as real else x as real / Ten(-e) as real
  }

  function ExponentValue(e: Exponent): int {
    match e
    case NoExponent => 0
    case Exponent(_, sign, ds) => if sign == Minus then 0 - Natural(ds) else Natural(ds)
  }

  /** All digits read without the dot, moved by the exponent and by the length of the fraction. */
  function NumeralValue(n: Numeral): real {
    var digits: int := Natural(n.whole + n.fraction);
    Scaled(if n.minus then 0 - digits else digits, ExponentValue(n.exponent) - |n.fraction|)
  }

  // ----- strings (section 7)

  type CodePoint = u: nat | u < 0x110000

  /**
   * A byte as it is, an escaped letter, or a code point as one or as two \u escapes. U+0000 and
   * unpaired surrogates, which stand for no character of a C string, are left out.
   */
  datatype Char =
    | Raw(b: byte)
    | Letter(letter: byte)
    | Point(u: CodePoint, unit: seq<byte>)
    | Pair(u: CodePoint, high: seq<byte>, low: seq<byte>)

  predicate IsLetter(b: byte) {
    b in [0x22, 0x5C, 0x2F, 0x62, 0x66, 0x6E, 0x72, 0x74]
  }

  const LOWER: seq<byte> :=
    [0x30, 0x31, 0x32, 0x33, 0x34, 0x35, 0x36, 0x37, 0x38, 0x39, 0x61, 0x62, 0x63, 0x64, 0x65, 0x66]
  const UPPER: seq<byte> :=
    [0x30, 0x31, 0x32, 0x33, 0x34, 0x35, 0x36, 0x37, 0x38, 0x39, 0x41, 0x42, 0x43, 0x44, 0x45, 0x46]

  predicate SpellsDigit(b: byte, d: nat)
    requires d < 16
  {
    b == LOWER[d] || b == UPPER[d]
  }

  /** A backslash, a u, and the four hex digits of u, most significant first, in any mixture of cases. */
  predicate Spells(e: seq<byte>, u: nat) {
    u < 0x10000 && |e| == 6 && e[0] == 0x5C && e[1] == 0x75 &&
    SpellsDigit(e[2], u / 4096) && SpellsDigit(e[3], u / 256 % 16) &&
    SpellsDigit(e[4], u / 16 % 16) && SpellsDigit(e[5], u % 16)
  }

  predicate ValidChar(c: Char) {
    match c
    case Raw(b) => b >= 0x20 && b != 0x22 && b != 0x5C
    case Letter(b) => IsLetter(b)
    case Point(u, e) => 0 < u < 0x10000 && !(0xD800 <= u <= 0xDFFF) && Spells(e, u)
    case Pair(u, e, f) =>
      0x10000 <= u &&
      Spells(e, 0xD800 + (u - 0x10000) / 0x400) && Spells(f, 0xDC00 + (u - 0x10000) % 0x400)
  }

  predicate ValidChars(cs: seq<Char>) { forall i :: 0 <= i < |cs| ==> ValidChar(cs[i]) }

  function WrittenChar(c: Char): seq<byte> {
    match c
    case Raw(b) => [b]
    case Letter(b) => [0x5C, b]
    case Point(_, e) => e
    case Pair(_, e, f) => e + f
  }

  function WrittenChars(cs: seq<Char>): seq<byte> {
    if cs == [] then [] else WrittenChar(cs[0]) + WrittenChars(cs[1..])
  }

  function WrittenString(cs: seq<Char>): seq<byte> { [0x22] + WrittenChars(cs) + [0x22] }

  function LetterMeaning(b: byte): byte {
    match b
    case 0x62 => 0x08
    case 0x66 => 0x0C
    case 0x6E => 0x0A
    case 0x72 => 0x0D
    case 0x74 => 0x09
    case _ => b
  }

  /** The bytes of a character, code points in UTF-8. */
  function CharMeaning(c: Char): seq<byte> {
    match c
    case Raw(b) => [b]
    case Letter(b) => [LetterMeaning(b)]
    case Point(u, _) => Utf8(u)
    case Pair(u, _, _) => Utf8(u)
  }

  function CharsMeaning(cs: seq<Char>): seq<byte> {
    if cs == [] then [] else CharMeaning(cs[0]) + CharsMeaning(cs[1..])
  }

  // ----- values (sections 3, 4 and 5)

  datatype Syntax =
    | NullWord
    | FalseWord
    | TrueWord
    | Number(numeral: Numeral)
    | Text(chars: seq<Char>)
    | EmptyArray(inside: Gap)
    | FullArray(elements: Elements)
    | EmptyObject(inside: Gap)
    | FullObject(members: Members)

  datatype Element = Element(before: Gap, value: Syntax, after: Gap)

  datatype Elements = LastElement(element: Element) | MoreElements(element: Element, others: Elements)

  /** before, key, behindKey, colon, behindColon, value, after */
  datatype Member = Member(before: Gap, key: seq<Char>, behindKey: Gap, behindColon: Gap, value: Syntax, after: Gap)

  datatype Members = LastMember(member: Member) | MoreMembers(member: Member, rest: Members)

  predicate Valid(x: Syntax, comments: bool)
    decreases x, 0
  {
    match x
    case Number(n) => ValidNumeral(n)
    case Text(cs) => ValidChars(cs)
    case EmptyArray(g) => ValidGap(g, comments)
    case FullArray(es) => ValidElements(es, comments)
    case EmptyObject(g) => ValidGap(g, comments)
    case FullObject(ms) => ValidMembers(ms, comments)
    case _ => true
  }

  predicate ValidElement(e: Element, comments: bool)
    decreases e, 0
  {
    ValidGap(e.before, comments) && Valid(e.value, comments) && ValidGap(e.after, comments)
  }

  predicate ValidElements(es: Elements, comments: bool)
    decreases es, 1
  {
    ValidElement(es.element, comments) && (es.MoreElements? ==> ValidElements(es.others, comments))
  }

  predicate ValidMember(m: Member, comments: bool)
    decreases m, 0
  {
    ValidGap(m.before, comments) && ValidChars(m.key) && ValidGap(m.behindKey, comments) &&
    ValidGap(m.behindColon, comments) && Valid(m.value, comments) && ValidGap(m.after, comments)
  }

  predicate ValidMembers(ms: Members, comments: bool)
    decreases ms, 1
  {
    ValidMember(ms.member, comments) && (ms.MoreMembers? ==> ValidMembers(ms.rest, comments))
  }

  function Written(x: Syntax): seq<byte>
    decreases x, 0
  {
    match x
    case NullWord => [0x6E, 0x75, 0x6C, 0x6C]
    case FalseWord => [0x66, 0x61, 0x6C, 0x73, 0x65]
    case TrueWord => [0x74, 0x72, 0x75, 0x65]
    case Number(n) => WrittenNumeral(n)
    case Text(cs) => WrittenString(cs)
    case EmptyArray(g) => [0x5B] + WrittenGap(g) + [0x5D]
    case FullArray(es) => [0x5B] + WrittenElements(es) + [0x5D]
    case EmptyObject(g) => [0x7B] + WrittenGap(g) + [0x7D]
    case FullObject(ms) => [0x7B] + WrittenMembers(ms) + [0x7D]
  }

  function WrittenElement(e: Element): seq<byte>
    decreases e, 0
  {
    WrittenGap(e.before) + Written(e.value) + WrittenGap(e.after)
  }

  function WrittenElements(es: Elements): seq<byte>
    decreases es, 1
  {
    match es
    case LastElement(e) => WrittenElement(e)
    case MoreElements(e, others) => WrittenElement(e) + [0x2C] + WrittenElements(others)
  }

  function WrittenMember(m: Member): seq<byte>
    decreases m, 0
  {
    WrittenGap(m.before) + WrittenString(m.key) + WrittenGap(m.behindKey) + [0x3A] +
    WrittenGap(m.behindColon) + Written(m.value) + WrittenGap(m.after)
  }

  function WrittenMembers(ms: Members): seq<byte>
    decreases ms, 1
  {
    match ms
    case LastMember(m) => WrittenMember(m)
    case MoreMembers(m, rest) => WrittenMember(m) + [0x2C] + WrittenMembers(rest)
  }

  function Meaning(x: Syntax): Value
    decreases x, 0
  {
    match x
    case NullWord => Null
    case FalseWord => False
    case TrueWord => True
    case Number(n) => Value.Number(NumeralValue(n))
    case Text(cs) => String(CharsMeaning(cs))
    case EmptyArray(_) => Array(Nil)
    case FullArray(es) => Array(ElementsMeaning(es))
    case EmptyObject(_) => Object(Nil)
    case FullObject(ms) => Object(MembersMeaning(ms))
  }

  function ElementsMeaning(es: Elements): Items
    decreases es, 1
  {
    match es
    case LastElement(e) => Cons(None, Meaning(e.value), Nil)
    case MoreElements(e, others) => Cons(None, Meaning(e.value), ElementsMeaning(others))
  }

  function MembersMeaning(ms: Members): Items
    decreases ms, 1
  {
    match ms
    case LastMember(m) => Cons(Some(CharsMeaning(m.key)), Meaning(m.value), Nil)
    case MoreMembers(m, rest) => Cons(Some(CharsMeaning(m.key)), Meaning(m.value), MembersMeaning(rest))
  }

  // ----- whole texts (section 2)

  datatype Document = Document(before: Gap, value: Syntax, after: Gap)

  predicate ValidDocument(d: Document, comments: bool) {
    ValidGap(d.before, comments) && Valid(d.value, comments) && ValidGap(d.after, comments)
  }

  function WrittenDocument(d: Document): seq<byte> {
    WrittenGap(d.before) + Written(d.value) + WrittenGap(d.after)
  }

  lemma {:induction false} ValidToo(x: Syntax)
    requires Valid(x, false)
    ensures Valid(x, true)
    decreases x, 0
  {
    match x
    case FullArray(es) => ElementsValidToo(es);
    case FullObject(ms) => MembersValidToo(ms);
    case _ =>
  }

  lemma {:induction false} ElementsValidToo(es: Elements)
    requires ValidElements(es, false)
    ensures ValidElements(es, true)
    decreases es, 1
  {
    ValidToo(es.element.value);
    if es.MoreElements? { ElementsValidToo(es.others); }
  }

  lemma {:induction false} MembersValidToo(ms: Members)
    requires ValidMembers(ms, false)
    ensures ValidMembers(ms, true)
    decreases ms, 1
  {
    ValidToo(ms.member.value);
    if ms.MoreMembers? { MembersValidToo(ms.rest); }
  }

  /** A text of the grammar, and the value it stands for. */
  ghost predicate Denotes(text: seq<byte>, v: Value) {
    exists d: Document ::
      ValidDocument(d, false) && WrittenDocument(d) == text && Meaning(d.value) == v
  }
}
