/** The hexadecimal escapes of parse_hex4 and the UTF-16 to UTF-8 arithmetic of parse_string. */
module Unicode {
  import opened Bytes

  /** Value of one hexadecimal digit in either case, as parse_hex4 reads it. */
  function HexDigit(b: byte): (r: Option<nat>)
    ensures r.Some? ==> r.value < 16
  {
    if 0x30 <= b <= 0x39 then Some(b - 0x30)
    else if 0x41 <= b <= 0x46 then Some(10 + b - 0x41)
    else if 0x61 <= b <= 0x66 then Some(10 + b - 0x61)
    else None
  }

  /** parse_hex4: the value of four digits, 0 as soon as one of them is no digit. */
  function Hex4(a: byte, b: byte, c: byte, d: byte): (h: nat)
    ensures h < 0x10000
  {
    if AllHex(a, b, c, d)
    then ((HexDigit(a).value * 16 + HexDigit(b).value) * 16 + HexDigit(c).value) * 16 + HexDigit(d).value
    else 0
  }

  predicate AllHex(a: byte, b: byte, c: byte, d: byte) {
    HexDigit(a).Some? && HexDigit(b).Some? && HexDigit(c).Some? && HexDigit(d).Some?
  }

  predicate HighSurrogate(u: nat) { 0xD800 <= u <= 0xDBFF }
  predicate LowSurrogate(u: nat) { 0xDC00 <= u <= 0xDFFF }

  /** The code point of a surrogate pair. */
  function Combine(hi: nat, lo: nat): (u: nat)
    ensures 0x10000 <= u < 0x110000
  {
    0x10000 + (hi % 0x400) * 0x400 + lo % 0x400
  }

  /** The length parse_string chooses for a code point. */
  function Utf8Length(u: nat): nat {
    if u < 0x80 then 1 else if u < 0x800 then 2 else if u < 0x10000 then 3 else 4
  }

  /** The bytes parse_string writes for a code point. */
  function Utf8(u: nat): (s: seq<byte>)
    requires u < 0x110000
    ensures |s| == Utf8Length(u)
  {
    if u < 0x80 then [u]
    else if u < 0x800 then [0xC0 + u / 64, 0x80 + u % 64]
    else if u < 0x10000 then [0xE0 + u / 64 / 64, 0x80 + u / 64 % 64, 0x80 + u % 64]
    else [0xF0 + u / 64 / 64 / 64, 0x80 + u / 64 / 64 % 64, 0x80 + u / 64 % 64, 0x80 + u % 64]
  }

  /** The masks and shifts of the C code are the remainders and quotients used here. */
  lemma TailBits(u: bv32)
    ensures (u | 0x80) & 0xBF == 0x80 + u % 64
    ensures u >> 6 == u / 64
  {
  }

  lemma LeadBits(u: bv32)
    ensures (u & 0x1F) | 0xC0 == 0xC0 + (u & 0x1F)
    ensures (u & 0x0F) | 0xE0 == 0xE0 + (u & 0x0F)
    ensures (u & 0x07) | 0xF0 == 0xF0 + (u & 0x07)
  {
  }

  lemma CombineBits(hi: bv32, lo: bv32)
    ensures ((hi & 0x3FF) << 10) | (lo & 0x3FF) == (hi % 0x400) * 0x400 + lo % 0x400
  {
  }

  predicate Tail(b: byte) { 0x80 <= b < 0xC0 }

  /**
   * Section 3 of RFC 3629 read backwards: the number whose bits fill the x positions of the
   * table's row for that many bytes. Overlong forms are not rejected here, so that
   * "shortest" can be stated below.
   */
  function BitsOf(s: seq<byte>): Option<nat> {
    if |s| == 1 && s[0] < 0x80 then Some(s[0])
    else if |s| == 2 && 0xC0 <= s[0] < 0xE0 && Tail(s[1]) then
      var lead: nat := s[0] - 0xC0;
      Some(lead * 64 + TailValue(s[1]))
    else if |s| == 3 && 0xE0 <= s[0] < 0xF0 && Tail(s[1]) && Tail(s[2]) then
      var lead: nat := s[0] - 0xE0;
      Some((lead * 64 + TailValue(s[1])) * 64 + TailValue(s[2]))
    else if |s| == 4 && 0xF0 <= s[0] < 0xF8 && Tail(s[1]) && Tail(s[2]) && Tail(s[3]) then
      var lead: nat := s[0] - 0xF0;
      Some(((lead * 64 + TailValue(s[1])) * 64 + TailValue(s[2])) * 64 + TailValue(s[3]))
    else None
  }

  function TailValue(b: byte): nat
    requires Tail(b)
  {
    b - 0x80
  }

  /** Encoding then reading back gives the code point. */
  lemma Utf8RoundTrip(u: nat)
    requires u < 0x110000
    ensures BitsOf(Utf8(u)) == Some(u)
  {
    assert u == u / 64 * 64 + u % 64;
    assert u / 64 == u / 64 / 64 * 64 + u / 64 % 64;
    assert u / 64 / 64 == u / 64 / 64 / 64 * 64 + u / 64 / 64 % 64;
  }

  /** No shorter byte string of the table stands for the same code point. */
  lemma Utf8Shortest(u: nat, s: seq<byte>)
    requires u < 0x110000 && BitsOf(s) == Some(u)
    ensures |Utf8(u)| <= |s|
  {
  }

  /** Splitting a supplementary code point into surrogates (section 2.1 of RFC 2781). */
  function HighOf(u: nat): (h: nat)
    requires 0x10000 <= u < 0x110000
    ensures HighSurrogate(h)
  {
    0xD800 + (u - 0x10000) / 0x400
  }

  function LowOf(u: nat): (l: nat)
    requires 0x10000 <= u < 0x110000
    ensures LowSurrogate(l)
  {
    0xDC00 + (u - 0x10000) % 0x400
  }

  lemma CombineSplit(u: nat)
    requires 0x10000 <= u < 0x110000
    ensures Combine(HighOf(u), LowOf(u)) == u
  {
    var v := u - 0x10000;
    assert (0xD800 + v / 0x400) % 0x400 == v / 0x400;
    assert (0xDC00 + v % 0x400) % 0x400 == v % 0x400;
  }
}
