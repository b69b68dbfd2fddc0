/** JSON string literals: what parse_string decodes and what print_string_ptr escapes. */
module StringLiteral {
  import opened Bytes
  import opened Unicode
  import G = Grammar

  /** The byte a two-character escape stands for; an unknown letter stands for itself. */
  function Unescape(b: byte): byte {
    match b
    case 0x62 => 0x08
    case 0x66 => 0x0C
    case 0x6E => 0x0A
    case 0x72 => 0x0D
    case 0x74 => 0x09
    case _ => b
  }

  /**
   * Room for the four bytes that \u takes, digits or not. A quote or backslash among them would
   * be read differently by the two passes of parse_string.
   */
  predicate UnitAt(s: seq<byte>, i: nat) {
    i + 4 <= |s| && InsideUnit(s[i]) && InsideUnit(s[i + 1]) && InsideUnit(s[i + 2]) && InsideUnit(s[i + 3])
  }

  predicate InsideUnit(b: byte) { b != QUOTE && b != BACKSLASH }

  /**
   * One turn of the decoding loop: bytes written and bytes read, or an escape cut short or mixed up with
   * the end of the literal.
   */
  datatype Turn = Turn(out: seq<byte>, len: nat) | CutShort

  predicate HexAt(s: seq<byte>, i: nat) {
    i + 4 <= |s| && AllHex(s[i], s[i + 1], s[i + 2], s[i + 3])
  }

  function HexValueAt(s: seq<byte>, i: nat): (h: nat)
    requires i + 4 <= |s|
    ensures h < 0x10000
  {
    Hex4(s[i], s[i + 1], s[i + 2], s[i + 3])
  }

  function DecodeTurn(s: seq<byte>): (t: Turn)
    requires s != [] && s[0] != QUOTE
    ensures t.Turn? ==> 1 <= t.len <= |s|
  {
    if s[0] != BACKSLASH then Turn([s[0]], 1)
    else if |s| < 2 then CutShort
    else if s[1] != LOWER_U then Turn([Unescape(s[1])], 2)
    else if !UnitAt(s, 2) then CutShort
    else
      var u := HexValueAt(s, 2);
      if LowSurrogate(u) || u == 0 then Turn([], 6)
      else if !HighSurrogate(u) then Turn(Utf8(u), 6)
      else if |s| < 8 || s[6] != BACKSLASH || s[7] != LOWER_U then Turn([], 6)
      else if !UnitAt(s, 8) then CutShort
      else if !LowSurrogate(HexValueAt(s, 8)) then Turn([], 12)
      else Turn(Utf8(Combine(u, HexValueAt(s, 8))), 12)
  }

  /** A decoded literal and the text behind it; BadEscape stands for an escape cut short. */
  datatype Decoded = Decoded(text: seq<byte>, rest: seq<byte>) | BadEscape

  /** The decoding pass of parse_string from behind the opening quote. The end of the text closes a literal too. */
  function DecodeBody(s: seq<byte>): (d: Decoded)
    ensures d.Decoded? ==> |d.rest| <= |s|
  {
    if s == [] then Decoded([], [])
    else if s[0] == QUOTE then Decoded([], s[1..])
    else
      var t := DecodeTurn(s);
      if t.CutShort? then BadEscape
      else
        var d := DecodeBody(s[t.len..]);
        if d.BadEscape? then BadEscape else Decoded(t.out + d.text, d.rest)
  }

  /** The counting pass of parse_string: the size it reserves and where it stops, unless it runs over the end. */
  datatype Counted = Counted(len: nat, rest: seq<byte>) | Overrun

  function CountBody(s: seq<byte>): Counted {
    if s == [] then Counted(0, [])
    else if s[0] == QUOTE then Counted(0, s[1..])
    else if s[0] != BACKSLASH then More(1, CountBody(s[1..]))
    else if |s| < 2 then Overrun
    else More(1, CountBody(s[2..]))
  }

  function More(n: nat, c: Counted): Counted {
    if c.Overrun? then Overrun else Counted(c.len + n, c.rest)
  }

  lemma CountByte(s: seq<byte>)
    requires s != [] && s[0] != QUOTE && s[0] != BACKSLASH
    ensures CountBody(s) == More(1, CountBody(s[1..]))
  {
  }

  /** Bytes that are neither quote nor backslash are counted one by one. */
  lemma {:induction false} CountPlain(s: seq<byte>, n: nat)
    requires n <= |s|
    requires forall i :: 0 <= i < n ==> s[i] != QUOTE && s[i] != BACKSLASH
    ensures CountBody(s) == More(n, CountBody(s[n..]))
  {
    if n == 0 {
      assert s[0..] == s;
    } else {
      CountByte(s);
      hide CountBody;
      CountPlain(s[1..], n - 1);
      assert s[1..][n - 1..] == s[n..];
    }
  }

  lemma CountPair(s: seq<byte>)
    requires |s| >= 2 && s[0] == BACKSLASH
    ensures CountBody(s) == More(1, CountBody(s[2..]))
  {
  }

  /** A \u escape is counted as five. */
  lemma CountUnit(s: seq<byte>)
    requires |s| >= 6 && s[0] == BACKSLASH && s[1] == LOWER_U && UnitAt(s, 2)
    ensures CountBody(s) == More(5, CountBody(s[6..]))
  {
    hide CountBody;
    CountPair(s);
    var r := s[2..];
    assert r[0] == s[2] && r[1] == s[3] && r[2] == s[4] && r[3] == s[5];
    CountPlain(r, 4);
    assert r[4..] == s[6..];
  }

  lemma CountTwoUnits(s: seq<byte>)
    requires |s| >= 12 && s[0] == BACKSLASH && s[1] == LOWER_U && UnitAt(s, 2)
    requires s[6] == BACKSLASH && s[7] == LOWER_U && UnitAt(s, 8)
    ensures CountBody(s) == More(10, CountBody(s[12..]))
  {
    hide CountBody;
    CountUnit(s);
    var q := s[6..];
    assert UnitAt(q, 2) by { assert q[2] == s[8] && q[3] == s[9] && q[4] == s[10] && q[5] == s[11]; }
    CountUnit(q);
    assert q[6..] == s[12..];
  }

  /** Counting passes over a whole escape in step with decoding, reserving room for its bytes. */
  lemma CountTurn(s: seq<byte>) returns (n: nat)
    requires s != [] && s[0] != QUOTE && DecodeTurn(s).Turn?
    ensures n >= |DecodeTurn(s).out| && CountBody(s) == More(n, CountBody(s[DecodeTurn(s).len..]))
  {
    hide CountBody, Utf8, Combine, Unescape, More;
    var t := DecodeTurn(s);
    if s[0] != BACKSLASH {
      CountPlain(s, 1);
      n := 1;
    } else if s[1] != LOWER_U {
      CountPair(s);
      n := 1;
    } else if t.len == 6 {
      CountUnit(s);
      n := 5;
    } else {
      CountTwoUnits(s);
      n := 10;
    }
  }

  /**
   * Both passes of parse_string stop at the same place, the counting pass stays inside the
   * text, and the size it reserves suffices for the decoded bytes.
   */
  lemma {:induction false} PassesAgree(s: seq<byte>)
    requires DecodeBody(s).Decoded?
    ensures CountBody(s).Counted? && CountBody(s).rest == DecodeBody(s).rest
    ensures |DecodeBody(s).text| <= CountBody(s).len
  {
    if s != [] && s[0] != QUOTE {
      var n := CountTurn(s);
      PassesAgree(s[DecodeTurn(s).len..]);
    }
  }

  lemma TurnNulFree(s: seq<byte>)
    requires NulFree(s) && s != [] && s[0] != QUOTE && DecodeTurn(s).Turn?
    ensures NulFree(DecodeTurn(s).out)
  {
  }

  /** A decoded string is a C string whenever the text is one. */
  lemma {:induction false} DecodedNulFree(s: seq<byte>)
    requires NulFree(s) && DecodeBody(s).Decoded?
    ensures NulFree(DecodeBody(s).text) && NulFree(DecodeBody(s).rest)
  {
    hide DecodeTurn;
    if s != [] && s[0] != QUOTE {
      TurnNulFree(s);
      DecodedNulFree(s[DecodeTurn(s).len..]);
    }
  }

  // ----- \u escapes

  /** The six bytes \uXXXX with the given value, whatever the case of its digits. */
  predicate IsUnit(e: seq<byte>, u: nat) {
    |e| == 6 && e[0] == BACKSLASH && e[1] == LOWER_U && HexAt(e, 2) && HexValueAt(e, 2) == u
  }

  lemma SpelledDigit(b: byte, d: nat)
    requires d < 16 && G.SpellsDigit(b, d)
    ensures HexDigit(b) == Some(d)
  {
  }

  lemma SpelledUnit(e: seq<byte>, u: nat)
    requires G.Spells(e, u)
    ensures IsUnit(e, u)
  {
    SpelledDigit(e[2], u / 4096);
    SpelledDigit(e[3], u / 256 % 16);
    SpelledDigit(e[4], u / 16 % 16);
    SpelledDigit(e[5], u % 16);
    FourDigits(u);
    hide HexDigit, G.SpellsDigit;
  }

  lemma FourDigits(u: nat)
    requires u < 0x10000
    ensures u / 4096 < 16 && ((u / 4096 * 16 + u / 256 % 16) * 16 + u / 16 % 16) * 16 + u % 16 == u
  {
    var a := u / 16;
    var b := a / 16;
    assert u / 256 == b && u / 4096 == b / 16;
    assert b / 16 * 16 + b % 16 == b && b * 16 + a % 16 == a && a * 16 + u % 16 == u;
  }

  /** A scalar value written as one \u escape, or as a surrogate pair beyond U+FFFF (section 7 of RFC 8259). */
  predicate IsEscapeOf(e: seq<byte>, u: nat)
    requires u < 0x110000
  {
    if u < 0x10000 then G.Spells(e, u)
    else |e| == 12 && G.Spells(e[..6], HighOf(u)) && G.Spells(e[6..], LowOf(u))
  }

  /** Every escaped scalar value decodes to its UTF-8 form, and that form is exact and shortest. */
  lemma EscapeDecodes(u: nat, e: seq<byte>, s: seq<byte>)
    requires 0 < u < 0x110000 && !HighSurrogate(u) && !LowSurrogate(u)
    requires IsEscapeOf(e, u)
    requires DecodeBody(s).Decoded?
    ensures DecodeBody(e + s) == Decoded(Utf8(u) + DecodeBody(s).text, DecodeBody(s).rest)
    ensures BitsOf(Utf8(u)) == Some(u)
    ensures forall b :: BitsOf(b) == Some(u) ==> |Utf8(u)| <= |b|
  {
    Utf8RoundTrip(u);
    forall b | BitsOf(b) == Some(u) ensures |Utf8(u)| <= |b| { Utf8Shortest(u, b); }
    EscapeTurn(u, e, s);
    hide Utf8, DecodeTurn, BitsOf, IsEscapeOf, G.Spells;
    assert (e + s)[|e|..] == s;
  }

  lemma EscapeTurn(u: nat, e: seq<byte>, s: seq<byte>)
    requires 0 < u < 0x110000 && !HighSurrogate(u) && !LowSurrogate(u) && IsEscapeOf(e, u)
    ensures e != [] && e[0] != QUOTE && DecodeTurn(e + s) == Turn(Utf8(u), |e|)
  {
    hide Utf8, HexValueAt, UnitAt, HexAt, HighOf, LowOf, Combine, G.Spells;
    if u < 0x10000 {
      SpelledUnit(e, u);
      UnitTurn(e, u, s);
    } else {
      SpelledUnit(e[..6], HighOf(u));
      SpelledUnit(e[6..], LowOf(u));
      hide DecodeTurn, IsUnit;
      CombineSplit(u);
      assert e == e[..6] + e[6..];
      LongTurn(e[..6], HighOf(u), e[6..], LowOf(u), s);
    }
  }

  lemma LongTurn(e: seq<byte>, hi: nat, f: seq<byte>, lo: nat, s: seq<byte>)
    requires IsUnit(e, hi) && IsUnit(f, lo) && HighSurrogate(hi) && LowSurrogate(lo)
    ensures |e + f| == 12 && (e + f)[0] != QUOTE && DecodeTurn(e + f + s) == Turn(Utf8(Combine(hi, lo)), 12)
  {
    UnitTurn(e, hi, f + s);
    UnitTurn(f, lo, s);
    hide Utf8, HexValueAt, UnitAt, HexAt, DecodeTurn, Combine;
    assert e + (f + s) == e + f + s && (e + f + s)[6..] == f + s;
    PairTurn(e + f + s, hi, lo);
  }

  /** Two units in a row that make a pair. */
  lemma PairTurn(s: seq<byte>, hi: nat, lo: nat)
    requires |s| >= 12 && s[0] == BACKSLASH && s[1] == LOWER_U && UnitAt(s, 2) && HexValueAt(s, 2) == hi
    requires s[6..][0] == BACKSLASH && s[6..][1] == LOWER_U && UnitAt(s[6..], 2) && HexValueAt(s[6..], 2) == lo
    requires HighSurrogate(hi) && LowSurrogate(lo)
    ensures DecodeTurn(s) == Turn(Utf8(Combine(hi, lo)), 12)
  {
    hide Utf8, Hex4, Combine;
    var t := s[6..];
    assert t[0] == s[6] && t[1] == s[7] && t[2] == s[8] && t[3] == s[9] && t[4] == s[10] && t[5] == s[11];
    assert UnitAt(s, 8) && HexValueAt(s, 8) == lo;
  }

  /** A unit at the front of a text. */
  lemma UnitTurn(e: seq<byte>, u: nat, s: seq<byte>)
    requires IsUnit(e, u)
    ensures var all := e + s;
            |all| >= 6 && all[0] == BACKSLASH && all[1] == LOWER_U && UnitAt(all, 2) && HexValueAt(all, 2) == u
  {
    var all := e + s;
    assert all[0] == e[0] && all[1] == e[1] && all[2] == e[2] && all[3] == e[3] && all[4] == e[4] && all[5] == e[5];
  }

  /**
   * An escaped byte other than b, f, n, r, t and u stands for itself: quote, backslash and slash
   * as in RFC 8259, and every unknown letter.
   */
  lemma OtherStandsForItself(c: byte, s: seq<byte>)
    requires c !in [0x62, 0x66, 0x6E, 0x72, 0x74, 0x75] && DecodeBody(s).Decoded?
    ensures DecodeBody([0x5C, c] + s) == Decoded([c] + DecodeBody(s).text, DecodeBody(s).rest)
  {
    var all := [0x5C, c] + s;
    assert all[0] == 0x5C && all[1] == c && all[2..] == s;
    assert DecodeTurn(all) == Turn([c], 2);
    hide DecodeTurn;
  }

  /** Unpaired halves and U+0000 leave no byte behind. */
  lemma LoneSurrogateDropped(u: nat, e: seq<byte>, s: seq<byte>)
    requires G.Spells(e, u) && DecodeBody(s).Decoded?
    requires u == 0 || LowSurrogate(u) || (HighSurrogate(u) && (|s| < 2 || s[0] != BACKSLASH || s[1] != LOWER_U))
    ensures DecodeBody(e + s) == DecodeBody(s)
  {
    SpelledUnit(e, u);
    UnitTurn(e, u, s);
    hide G.Spells, IsUnit, HexValueAt, UnitAt, HexAt;
    var all := e + s;
    assert all[6..] == s;
    assert |s| >= 2 ==> all[6] == s[0] && all[7] == s[1];
  }

  /** So do four bytes that are not all hex digits. */
  lemma NoDigitsDropped(e: seq<byte>, s: seq<byte>)
    requires |e| == 6 && e[0] == BACKSLASH && e[1] == LOWER_U && UnitAt(e, 2) && !HexAt(e, 2) && DecodeBody(s).Decoded?
    ensures DecodeBody(e + s) == DecodeBody(s)
  {
    var all := e + s;
    assert UnitAt(all, 2) && HexValueAt(all, 2) == 0;
    assert all[6..] == s;
  }

  /** A high half takes the unit behind it along, whatever that unit stands for. */
  lemma BrokenPairDropped(u: nat, e: seq<byte>, w: nat, f: seq<byte>, s: seq<byte>)
    requires G.Spells(e, u) && HighSurrogate(u) && G.Spells(f, w) && !LowSurrogate(w) && DecodeBody(s).Decoded?
    ensures DecodeBody(e + f + s) == DecodeBody(s)
  {
    SpelledUnit(e, u);
    SpelledUnit(f, w);
    UnitTurn(e, u, f + s);
    UnitTurn(f, w, s);
    hide G.Spells, IsUnit, HexValueAt, UnitAt, HexAt;
    var all := e + f + s;
    assert e + (f + s) == all && all[6..] == f + s && all[12..] == s;
    LostTurn(all, u, w);
  }

  lemma LostTurn(s: seq<byte>, hi: nat, w: nat)
    requires |s| >= 12 && s[0] == BACKSLASH && s[1] == LOWER_U && UnitAt(s, 2) && HexValueAt(s, 2) == hi
    requires s[6..][0] == BACKSLASH && s[6..][1] == LOWER_U && UnitAt(s[6..], 2) && HexValueAt(s[6..], 2) == w
    requires HighSurrogate(hi) && !LowSurrogate(w)
    ensures DecodeTurn(s) == Turn([], 12)
  {
    hide Utf8, Hex4, Combine;
    var t := s[6..];
    assert t[0] == s[6] && t[1] == s[7] && t[2] == s[8] && t[3] == s[9] && t[4] == s[10] && t[5] == s[11];
    assert UnitAt(s, 8) && HexValueAt(s, 8) == w;
  }

  // ----- escaping

  function HexLower(d: nat): byte
    requires d < 16
  {
    if d < 10 then 0x30 + d else 0x61 + d - 10
  }

  predicate NeedsEscape(b: byte) {
    b < 32 || b == QUOTE || b == BACKSLASH
  }

  /** What print_string_ptr writes for one byte. */
  function EscapeByte(b: byte): (e: seq<byte>)
    ensures 1 <= |e| <= 6
  {
    if !NeedsEscape(b) then [b]
    else match b
      case 0x5C => [BACKSLASH, BACKSLASH]
      case 0x22 => [BACKSLASH, QUOTE]
      case 0x08 => [BACKSLASH, 0x62]
      case 0x0C => [BACKSLASH, 0x66]
      case 0x0A => [BACKSLASH, 0x6E]
      case 0x0D => [BACKSLASH, 0x72]
      case 0x09 => [BACKSLASH, 0x74]
      case _ => [BACKSLASH, LOWER_U, 0x30, 0x30, HexLower(b / 16), HexLower(b % 16)]
  }

  function EscapeBody(s: seq<byte>): seq<byte> {
    if s == [] then [] else EscapeByte(s[0]) + EscapeBody(s[1..])
  }

  /** A printed string literal, quotes included. */
  function Quoted(s: seq<byte>): seq<byte> {
    [QUOTE] + EscapeBody(s) + [QUOTE]
  }

  lemma EscapeByteDecodes(b: byte, k: seq<byte>)
    requires b != 0
    ensures var s := EscapeByte(b) + k; s[0] != QUOTE && DecodeTurn(s) == Turn([b], |EscapeByte(b)|)
  {
    var s := EscapeByte(b) + k;
    if |EscapeByte(b)| == 6 {
      assert HexDigit(HexLower(b / 16)) == Some(b / 16) && HexDigit(HexLower(b % 16)) == Some(b % 16);
      assert HexValueAt(s, 2) == b / 16 * 16 + b % 16 == b;
    }
  }

  /** Decoding undoes escaping, whatever follows the closing quote. */
  lemma {:induction false} EscapeRoundTrip(s: seq<byte>, k: seq<byte>)
    requires NulFree(s)
    ensures DecodeBody(EscapeBody(s) + [QUOTE] + k) == Decoded(s, k)
  {
    var all := EscapeBody(s) + [QUOTE] + k;
    if s == [] {
      assert all == [QUOTE] + k;
    } else {
      var tail := EscapeBody(s[1..]) + [QUOTE] + k;
      assert all == EscapeByte(s[0]) + tail;
      EscapeByteDecodes(s[0], tail);
      assert all[|EscapeByte(s[0])|..] == tail;
      EscapeRoundTrip(s[1..], k);
    }
  }

  lemma {:induction false} EscapedNulFree(s: seq<byte>)
    requires NulFree(s)
    ensures NulFree(EscapeBody(s)) && NulFree(Quoted(s))
  {
    if s != [] {
      assert NulFree(EscapeByte(s[0]));
      EscapedNulFree(s[1..]);
    }
  }

  /** Without special bytes the printed literal is the string itself between quotes. */
  lemma {:induction false} PlainUnchanged(s: seq<byte>)
    requires forall i :: 0 <= i < |s| ==> !NeedsEscape(s[i])
    ensures EscapeBody(s) == s
  {
    if s != [] { PlainUnchanged(s[1..]); }
  }
}
