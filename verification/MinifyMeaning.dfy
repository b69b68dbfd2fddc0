/** Minifying keeps the value of a text, and turns formatted text into unformatted text. */
module MinifyMeaning {
  import opened Bytes
  import opened Unicode
  import opened StringLiteral
  import opened Numbers
  import opened Parsing
  import opened Minify

  // ----- how Minified passes over the pieces of a text

  /** Bytes that Minified copies wherever they stand outside literals. */
  predicate Copied(b: byte) { !Blank(b) && b != SLASH && b != QUOTE }

  lemma {:induction false} CopyRun(p: seq<byte>, k: seq<byte>)
    requires forall i :: 0 <= i < |p| ==> Copied(p[i])
    ensures Minified(p + k) == p + Minified(k) && Closed(p + k) == Closed(k)
  {
    hide MinifiedString, ClosedString;
    if p == [] {
      assert p + k == k;
    } else {
      assert (p + k)[1..] == p[1..] + k;
      CopyRun(p[1..], k);
    }
  }

  lemma {:induction false} BlankRun(w: seq<byte>, k: seq<byte>)
    requires forall i :: 0 <= i < |w| ==> Blank(w[i])
    ensures Minified(w + k) == Minified(k) && Closed(w + k) == Closed(k)
  {
    hide MinifiedString, ClosedString;
    if w == [] {
      assert w + k == k;
    } else {
      assert (w + k)[1..] == w[1..] + k;
      BlankRun(w[1..], k);
    }
  }

  lemma CopyOne(s: seq<byte>)
    requires s != [] && Copied(s[0])
    ensures Minified(s) == [s[0]] + Minified(s[1..]) && Minified(s)[1..] == Minified(s[1..])
    ensures Closed(s) == Closed(s[1..])
  {
    hide MinifiedString, ClosedString;
  }

  /** Skipping whitespace and minifying commute in front of anything but a comment. */
  lemma {:induction false} SkipMinified(s: seq<byte>)
    requires Closed(s) && !Starts(Skip(s), SLASH)
    ensures Skip(Minified(s)) == Minified(Skip(s)) && Closed(Skip(s))
  {
    hide MinifiedString, ClosedString;
    if s != [] && 0 < s[0] <= SPACE {
      SkipMinified(s[1..]);
      if !Blank(s[0]) {
        CopyOne(s);
      }
    }
  }

  /** Hence the first visible byte stays the same. */
  lemma FirstVisible(s: seq<byte>, b: byte)
    requires Closed(s) && Starts(Skip(s), b) && b > SPACE && Copied(b)
    ensures Starts(Skip(Minified(s)), b)
    ensures Skip(Minified(s))[1..] == Minified(Skip(s)[1..]) && Closed(Skip(s)[1..])
  {
    hide Minified, Closed;
    SkipMinified(s);
    CopyOne(Skip(s));
  }

  // ----- literals

  lemma {:induction false} PlainMinified(s: seq<byte>, n: nat)
    requires n <= |s| && ClosedString(s)
    requires forall i :: 0 <= i < n ==> s[i] != QUOTE && s[i] != BACKSLASH
    ensures ClosedString(s[n..]) && MinifiedString(s) == s[..n] + MinifiedString(s[n..])
  {
    hide Minified, Closed;
    if n == 0 {
      assert s[0..] == s;
    } else {
      var x := MinifiedString(s[n..]);
      assert s[1..][n - 1..] == s[n..];
      PlainMinified(s[1..], n - 1);
      Regroup(s, n, x);
    }
  }

  lemma Regroup(s: seq<byte>, n: nat, x: seq<byte>)
    requires 1 <= n <= |s|
    ensures [s[0]] + (s[1..][..n - 1] + x) == s[..n] + x
  {
  }

  lemma EscapeMinified(s: seq<byte>)
    requires ClosedString(s) && s != [] && s[0] == BACKSLASH
    ensures |s| >= 2 && ClosedString(s[2..]) && MinifiedString(s) == s[..2] + MinifiedString(s[2..])
  {
    hide Minified, Closed;
  }

  lemma UnitMinified(s: seq<byte>)
    requires ClosedString(s) && |s| >= 6 && s[0] == BACKSLASH && s[1] == LOWER_U && UnitAt(s, 2)
    ensures ClosedString(s[6..]) && MinifiedString(s) == s[..6] + MinifiedString(s[6..])
  {
    hide MinifiedString, ClosedString;
    EscapeMinified(s);
    var r := s[2..];
    assert r[0] == s[2] && r[1] == s[3] && r[2] == s[4] && r[3] == s[5];
    PlainMinified(r, 4);
    var x := MinifiedString(s[6..]);
    assert r[4..] == s[6..];
    assert s[..2] + (r[..4] + x) == s[..6] + x;
  }

  lemma PairMinified(s: seq<byte>)
    requires ClosedString(s) && |s| >= 12 && s[0] == BACKSLASH && s[1] == LOWER_U && UnitAt(s, 2)
    requires s[6] == BACKSLASH && s[7] == LOWER_U && UnitAt(s, 8)
    ensures ClosedString(s[12..]) && MinifiedString(s) == s[..12] + MinifiedString(s[12..])
  {
    hide MinifiedString, ClosedString;
    UnitMinified(s);
    var q := s[6..];
    assert q[2] == s[8] && q[3] == s[9] && q[4] == s[10] && q[5] == s[11];
    UnitMinified(q);
    assert q[6..] == s[12..];
    var x := MinifiedString(s[12..]);
    assert s[..6] + (q[..6] + x) == s[..12] + x;
  }

  /** A turn of the decoding loop sees the same bytes after minification. */
  lemma TurnMinified(s: seq<byte>)
    requires s != [] && s[0] != QUOTE && DecodeTurn(s).Turn? && ClosedString(s)
    ensures var t := DecodeTurn(s);
            ClosedString(s[t.len..]) && MinifiedString(s) == s[..t.len] + MinifiedString(s[t.len..])
  {
    hide MinifiedString, ClosedString, Utf8, Combine, Unescape;
    var t := DecodeTurn(s);
    if s[0] != BACKSLASH {
      PlainMinified(s, 1);
    } else if s[1] != LOWER_U {
      EscapeMinified(s);
    } else if t.len == 6 {
      UnitMinified(s);
    } else {
      PairMinified(s);
    }
  }

  /** A turn depends on the bytes it reads and on whether an escape follows. */
  lemma TurnLocal(s: seq<byte>, m: seq<byte>)
    requires s != [] && s[0] != QUOTE && DecodeTurn(s).Turn?
    requires var n := DecodeTurn(s).len; |m| >= n && m[..n] == s[..n]
    requires var n := DecodeTurn(s).len; EscapeFollows(s[n..]) == EscapeFollows(m[n..])
    ensures DecodeTurn(m) == DecodeTurn(s)
  {
    var n := DecodeTurn(s).len;
    assert forall i :: 0 <= i < n ==> m[i] == m[..n][i] == s[..n][i] == s[i];
    if n == 6 {
      assert |s| >= 8 ==> s[6] == s[6..][0] && s[7] == s[6..][1];
      assert |m| >= 8 ==> m[6] == m[6..][0] && m[7] == m[6..][1];
    }
  }

  predicate EscapeFollows(s: seq<byte>) { |s| >= 2 && s[0] == BACKSLASH && s[1] == LOWER_U }

  lemma EscapeFollowsMinified(s: seq<byte>)
    requires ClosedString(s)
    ensures EscapeFollows(MinifiedString(s)) == EscapeFollows(s)
  {
    hide Minified, Closed;
  }

  lemma {:induction false} LiteralMinified(s: seq<byte>)
    requires DecodeBody(s).Decoded? && ClosedString(s)
    ensures DecodeBody(MinifiedString(s)) == Decoded(DecodeBody(s).text, Minified(DecodeBody(s).rest))
    ensures Closed(DecodeBody(s).rest)
  {
    hide Minified, Closed, DecodeTurn;
    var m := MinifiedString(s);
    if s[0] == QUOTE {
      assert m[1..] == Minified(s[1..]);
    } else {
      var n := DecodeTurn(s).len;
      TurnMinified(s);
      assert m[..n] == s[..n] && m[n..] == MinifiedString(s[n..]);
      EscapeFollowsMinified(s[n..]);
      TurnLocal(s, m);
      assert m[0] == m[..n][0] == s[..n][0] == s[0];
      LiteralMinified(s[n..]);
    }
  }

  lemma StringMinified(s: seq<byte>)
    requires Starts(s, QUOTE) && Closed(s) && DecodeBody(s[1..]).Decoded?
    ensures var d := DecodeBody(s[1..]); var m := Minified(s);
            Starts(m, QUOTE) && DecodeBody(m[1..]) == Decoded(d.text, Minified(d.rest)) && Closed(d.rest)
  {
    assert ClosedString(s[1..]) && Minified(s)[1..] == MinifiedString(s[1..]);
    LiteralMinified(s[1..]);
  }

  // ----- numbers

  /** The number bytes a text starts with. */
  function Lexeme(s: seq<byte>): (n: nat)
    ensures n <= |s| && (forall i :: 0 <= i < n ==> NumberByte(s[i])) && Ends(s[n..])
  {
    if s == [] || !NumberByte(s[0]) then 0 else 1 + Lexeme(s[1..])
  }

  /** What ends a number before minification still ends it after. */
  lemma EndsMinified(k: seq<byte>)
    requires Closed(k) && Ends(k) && Ends(Skip(k)) && !Starts(Skip(k), SLASH)
    ensures Ends(Minified(k))
  {
    SkipMinified(k);
    var t := Skip(k);
    if t != [] && Copied(t[0]) { CopyOne(t); }
    MinifiedHead(k);
  }

  lemma MinifiedHead(k: seq<byte>)
    requires Closed(k) && !Starts(Skip(k), SLASH)
    ensures Minified(k) == [] || 0 < Minified(k)[0] <= SPACE || Minified(k) == Skip(Minified(k))
  {
  }

  lemma NumberMinified(s: seq<byte>)
    requires StartsNumber(s) && Closed(s)
    requires var k := ParseNumber(s).rest; Ends(Skip(k)) && !Starts(Skip(k), SLASH)
    ensures var n := ParseNumber(s); ParseNumber(Minified(s)) == Numeral(n.value, Minified(n.rest))
    ensures StartsNumber(Minified(s)) && Closed(ParseNumber(s).rest)
  {
    hide Minified, Closed, ParseNumber, Skip, Lexeme, Ends;
    var c := Lexeme(s);
    var p, k := s[..c], s[c..];
    assert s == p + k;
    NumberLocal(p, k);
    RestOfLexeme(s);
    CopyRun(p, k);
    EndsMinified(k);
    NumberLocal(p, Minified(k));
    assert [] + Minified(k) == Minified(k);
  }

  /** If nothing that could continue the number follows it, all its bytes were read. */
  lemma RestOfLexeme(s: seq<byte>)
    requires StartsNumber(s) && Ends(Skip(ParseNumber(s).rest))
    ensures var c := Lexeme(s);
            ParseNumber(s[..c]).rest == [] && ParseNumber(s).rest == s[c..] && Skip(s[c..]) == Skip(ParseNumber(s).rest)
  {
    hide IntegerPart, FractionPart, ExponentPart, Pow10;
    var c := Lexeme(s);
    var p, k := s[..c], s[c..];
    assert s == p + k;
    NumberLocal(p, k);
    NumberRestSuffix(p);
    var r := ParseNumber(p).rest;
    if r != [] {
      NumberByteStays(r, k);
      assert false;
    }
    assert [] + k == k;
  }

  lemma NumberByteStays(r: seq<byte>, k: seq<byte>)
    requires r != [] && NumberByte(r[0])
    ensures !Ends(Skip(r + k))
  {
    assert Skip(r + k) == r + k;
  }

  predicate SuffixOf(r: seq<byte>, s: seq<byte>) { |r| <= |s| && r == s[|s| - |r|..] }

  lemma {:induction false} DigitsSuffix(s: seq<byte>, acc: nat)
    ensures SuffixOf(Digits(s, acc).rest, s)
  {
    if s != [] && IsDigit(s[0]) {
      DigitsSuffix(s[1..], acc * 10 + (s[0] - 0x30));
      var n := |Digits(s, acc).rest|;
      assert s[1..][|s| - 1 - n..] == s[|s| - n..];
    }
  }

  lemma IntegerSuffix(s: seq<byte>)
    ensures SuffixOf(IntegerPart(s).rest, s)
  {
    DigitsSuffix(DropIf(s, 0x30), 0);
  }

  lemma FractionSuffix(s: seq<byte>, acc: nat)
    ensures SuffixOf(FractionPart(s, acc).rest, s)
  {
    if |s| > 1 { DigitsSuffix(s[1..], acc); }
  }

  lemma SuffixOfSuffix(a: seq<byte>, b: seq<byte>, c: seq<byte>)
    requires SuffixOf(a, b) && SuffixOf(b, c)
    ensures SuffixOf(a, c)
  {
  }

  lemma NumberRestSuffix(s: seq<byte>)
    ensures SuffixOf(ParseNumber(s).rest, s)
  {
    hide Pow10, IntegerPart, FractionPart, ExponentPart;
    var s1 := DropIf(s, MINUS);
    assert SuffixOf(s1, s);
    hide SuffixOf;
    IntegerSuffix(s1);
    var i := IntegerPart(s1);
    FractionSuffix(i.rest, i.acc);
    var f := FractionPart(i.rest, i.acc);
    ExponentSuffix(f.rest);
    SuffixOfSuffix(i.rest, s1, s);
    SuffixOfSuffix(f.rest, i.rest, s);
    SuffixOfSuffix(ExponentPart(f.rest).rest, f.rest, s);
  }

  lemma ExponentSuffix(s: seq<byte>)
    ensures SuffixOf(ExponentPart(s).rest, s)
  {
    if s != [] {
      var t := s[1..];
      var d := if Starts(t, PLUS) || Starts(t, MINUS) then t[1..] else t;
      DigitsSuffix(d, 0);
    }
  }

  // ----- values

  /** A text that parses starts with a visible byte, which is kept. */
  lemma ValueHead(s: seq<byte>)
    requires ParseValue(s).Parsed?
    ensures s != [] && s[0] > SPACE && s[0] != SLASH && Skip(s) == s
    ensures Starts(s, QUOTE) || Copied(s[0])
  {
    hide ParseArray, ParseObject, DecodeBody, ParseNumber;
  }

  lemma HeadKept(s: seq<byte>)
    requires s != [] && s[0] > SPACE && s[0] != SLASH
    ensures Minified(s) != [] && Minified(s)[0] == s[0]
  {
  }

  /** null, false, true, strings and numbers. */
  lemma LeafMinified(s: seq<byte>)
    requires ParseValue(s).Parsed? && Closed(s) && !Starts(s, LBRACKET) && !Starts(s, LBRACE)
    requires var k := Skip(ParseValue(s).rest); Ends(k) && !Starts(k, SLASH)
    ensures var p := ParseValue(s); ParseValue(Minified(s)) == Parsed(p.value, Minified(p.rest)) && Closed(p.rest)
  {
    hide Minified, Closed, DecodeBody, ParseNumber, Skip;
    if NULL_TEXT <= s {
      KeywordMinified(s, NULL_TEXT);
    } else if FALSE_TEXT <= s {
      KeywordMinified(s, FALSE_TEXT);
    } else if TRUE_TEXT <= s {
      KeywordMinified(s, TRUE_TEXT);
    } else if Starts(s, QUOTE) {
      StringMinified(s);
    } else {
      NumberMinified(s);
      Dispatch(s);
      Dispatch(Minified(s));
    }
  }

  lemma KeywordMinified(s: seq<byte>, word: seq<byte>)
    requires word <= s && Closed(s)
    requires forall i :: 0 <= i < |word| ==> Copied(word[i])
    ensures word <= Minified(s) && Minified(s)[|word|..] == Minified(s[|word|..]) && Closed(s[|word|..])
  {
    hide Minified, Closed;
    assert s == word + s[|word|..];
    CopyRun(word, s[|word|..]);
  }

  lemma {:induction false} ValueMinified(s: seq<byte>)
    requires ParseValue(s).Parsed? && Closed(s)
    requires var k := Skip(ParseValue(s).rest); Ends(k) && !Starts(k, SLASH)
    ensures var p := ParseValue(s); ParseValue(Minified(s)) == Parsed(p.value, Minified(p.rest)) && Closed(p.rest)
    decreases |s|, 1
  {
    hide Minified, Closed, ParseValue, Skip;
    if Starts(s, LBRACKET) {
      CopyOne(s);
      Dispatch(s);
      Dispatch(Minified(s));
      ArrayMinified(s);
    } else if Starts(s, LBRACE) {
      CopyOne(s);
      Dispatch(s);
      Dispatch(Minified(s));
      ObjectMinified(s);
    } else {
      LeafMinified(s);
    }
  }

  lemma {:induction false} ArrayMinified(s: seq<byte>)
    requires Starts(s, LBRACKET) && ParseArray(s).Parsed? && Closed(s)
    ensures Starts(Minified(s), LBRACKET)
    ensures var p := ParseArray(s); ParseArray(Minified(s)) == Parsed(p.value, Minified(p.rest)) && Closed(p.rest)
    decreases |s|, 0
  {
    hide Minified, Closed, ParseElems, Skip;
    CopyOne(s);
    var t := Skip(s[1..]);
    if Starts(t, RBRACKET) {
      FirstVisible(s[1..], RBRACKET);
    } else {
      SkipTwice(s[1..]);
      ElemsHead(t);
      SkipMinified(s[1..]);
      HeadKept(t);
      ElemsMinified(t);
    }
  }

  lemma {:induction false} SkipTwice(s: seq<byte>)
    ensures Skip(Skip(s)) == Skip(s)
  {
    if s != [] && 0 < s[0] <= SPACE { SkipTwice(s[1..]); }
  }

  lemma ElemsHead(s: seq<byte>)
    requires ParseElems(s).ParsedItems?
    ensures var x := Skip(s); x != [] && x[0] > SPACE && x[0] != SLASH && ParseValue(x).Parsed?
    ensures Skip(s) == s ==> s != [] && s[0] > SPACE && s[0] != SLASH
  {
    ValueHead(Skip(s));
  }

  lemma {:induction false} ElemsMinified(s: seq<byte>)
    requires ParseElems(s).ParsedItems? && Closed(s)
    ensures var p := ParseElems(s);
            ParseElems(Minified(s)) == ParsedItems(p.items, Minified(p.rest)) && Closed(p.rest)
    decreases |s|, 2
  {
    hide Minified, Closed, ParseValue, Skip;
    ElemsHead(s);
    var x := Skip(s);
    SkipMinified(s);
    var y := ParseValue(x).rest;
    var z := Skip(y);
    ValueMinified(x);
    if Starts(z, COMMA) {
      FirstVisible(y, COMMA);
      ElemsMinified(z[1..]);
    } else {
      FirstVisible(y, RBRACKET);
    }
  }

  lemma {:induction false} ObjectMinified(s: seq<byte>)
    requires Starts(s, LBRACE) && ParseObject(s).Parsed? && Closed(s)
    ensures Starts(Minified(s), LBRACE)
    ensures var p := ParseObject(s); ParseObject(Minified(s)) == Parsed(p.value, Minified(p.rest)) && Closed(p.rest)
    decreases |s|, 0
  {
    hide Minified, Closed, ParseMembers, Skip;
    CopyOne(s);
    var t := Skip(s[1..]);
    if Starts(t, RBRACE) {
      FirstVisible(s[1..], RBRACE);
    } else {
      SkipTwice(s[1..]);
      MembersHead(t);
      SkipMinified(s[1..]);
      HeadKept(t);
      MembersMinified(t);
    }
  }

  lemma MembersHead(s: seq<byte>)
    requires ParseMembers(s).ParsedItems?
    ensures Starts(Skip(s), QUOTE)
    ensures var d := DecodeBody(Skip(s)[1..]);
            d.Decoded? && Starts(Skip(d.rest), COLON) && ParseValue(Skip(Skip(d.rest)[1..])).Parsed?
  {
    hide ParseValue, DecodeBody, AfterItem;
  }

  /** The key and the colon of a member. */
  lemma KeyMinified(s: seq<byte>)
    requires ParseMembers(s).ParsedItems? && Closed(s)
    ensures var d := DecodeBody(Skip(s)[1..]); var x := Skip(Skip(d.rest)[1..]);
            var m := Skip(Minified(s));
            d.Decoded? && Starts(Skip(d.rest), COLON) && ParseValue(x).Parsed? && Closed(x) && |x| < |s| &&
            Starts(m, QUOTE) &&
            var dm := DecodeBody(m[1..]);
            dm.Decoded? && dm.text == d.text && Starts(Skip(dm.rest), COLON) && Skip(Skip(dm.rest)[1..]) == Minified(x)
  {
    hide Minified, Closed, ParseValue, ParseMembers, Skip, DecodeBody;
    MembersHead(s);
    SkipMinified(s);
    var d := DecodeBody(Skip(s)[1..]);
    StringMinified(Skip(s));
    FirstVisible(d.rest, COLON);
    var u := Skip(d.rest)[1..];
    ValueHead(Skip(u));
    SkipMinified(u);
  }

  lemma {:induction false} MembersMinified(s: seq<byte>)
    requires ParseMembers(s).ParsedItems? && Closed(s)
    ensures var p := ParseMembers(s);
            ParseMembers(Minified(s)) == ParsedItems(p.items, Minified(p.rest)) && Closed(p.rest)
    decreases |s|, 2
  {
    hide Minified, Closed, ParseValue, Skip, DecodeBody;
    KeyMinified(s);
    var d := DecodeBody(Skip(s)[1..]);
    var x := Skip(Skip(d.rest)[1..]);
    var y := ParseValue(x).rest;
    var z := Skip(y);
    ValueMinified(x);
    if Starts(z, COMMA) {
      FirstVisible(y, COMMA);
      MembersMinified(z[1..]);
    } else {
      FirstVisible(y, RBRACE);
    }
  }

  /**
   * Minifying an accepted text keeps its value. The literals and comments of the text have to
   * be closed, which is what cJSON_Minify needs to stay inside the text.
   */
  lemma MinifyKeepsValue(s: seq<byte>)
    requires ParseText(s).Parsed? && Closed(s)
    ensures ParseText(Minified(s)) == ParseText(s)
  {
    hide Minified, Closed, ParseValue;
    var x := Skip(s);
    ValueHead(x);
    SkipMinified(s);
    ValueMinified(x);
    SkipMinified(ParseValue(x).rest);
    assert Minified([]) == [] by { MinifiedNulFree([]); }
  }
}
