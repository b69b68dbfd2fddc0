/** What cJSON_Minify leaves of any text: no blank outside literals, and a comment only where two slashes met. */
module MinifyClean {
  import opened Bytes
  import opened Minify

  /** Outside literals there is no blank, and no slash in front of a slash or a star. */
  predicate Clean(s: seq<byte>)
    decreases |s|
  {
    if s == [] then true
    else if s[0] in [0x20, 0x09, 0x0D, 0x0A] then false
    else if |s| >= 2 && s[0] == 0x2F && s[1] in [0x2F, 0x2A] then false
    else if s[0] == 0x22 then CleanString(s[1..])
    else Clean(s[1..])
  }

  /** The same from inside a literal. */
  predicate CleanString(s: seq<byte>)
    decreases |s|
  {
    if s == [] then true
    else if s[0] == 0x22 then Clean(s[1..])
    else if s[0] == 0x5C && |s| >= 2 then CleanString(s[2..])
    else CleanString(s[1..])
  }

  /** The first byte that is neither blank nor comment. */
  function NextKept(s: seq<byte>): Option<byte>
    decreases |s|
  {
    if s == [] then None
    else if Blank(s[0]) then NextKept(s[1..])
    else if LineComment(s) then NextKept(AfterLine(s[1..]))
    else if BlockComment(s) then
      match AfterBlock(s) case None => None case Some(r) => NextKept(r)
    else Some(s[0])
  }

  /** Outside literals, a slash that starts no comment comes to stand in front of a slash or a star. */
  predicate SlashMeets(s: seq<byte>)
    decreases |s|
  {
    if s == [] then false
    else if Blank(s[0]) then SlashMeets(s[1..])
    else if LineComment(s) then SlashMeets(AfterLine(s[1..]))
    else if BlockComment(s) then
      match AfterBlock(s) case None => false case Some(r) => SlashMeets(r)
    else if s[0] == QUOTE then SlashMeetsString(s[1..])
    else (s[0] == SLASH && NextKept(s[1..]) in [Some(SLASH), Some(STAR)]) || SlashMeets(s[1..])
  }

  predicate SlashMeetsString(s: seq<byte>)
    decreases |s|
  {
    if s == [] then false
    else if s[0] == QUOTE then SlashMeets(s[1..])
    else if s[0] == BACKSLASH && |s| >= 2 then SlashMeetsString(s[2..])
    else SlashMeetsString(s[1..])
  }

  /** Minifying changes a text if and only if it has a blank or a comment outside its literals. */
  lemma {:induction false} FixedIffClean(s: seq<byte>)
    ensures Minified(s) == s <==> Clean(s)
    decreases |s|
  {
    hide MinifiedString, CleanString;
    if s == [] {
    } else if Blank(s[0]) {
      MinifiedNulFree(s[1..]);
    } else if LineComment(s) {
      MinifiedNulFree(AfterLine(s[1..]));
    } else if BlockComment(s) {
      if AfterBlock(s).Some? { MinifiedNulFree(AfterBlock(s).value); }
    } else if s[0] == QUOTE {
      StringFixedIffClean(s[1..]);
      FirstSame(s, MinifiedString(s[1..]));
    } else {
      FixedIffClean(s[1..]);
      FirstSame(s, Minified(s[1..]));
    }
  }

  lemma {:induction false} StringFixedIffClean(s: seq<byte>)
    ensures MinifiedString(s) == s <==> CleanString(s)
    decreases |s|
  {
    hide Minified, Clean;
    if s == [] {
    } else if s[0] == QUOTE {
      FixedIffClean(s[1..]);
      FirstSame(s, Minified(s[1..]));
    } else if s[0] == BACKSLASH && |s| >= 2 {
      StringFixedIffClean(s[2..]);
      FirstTwoSame(s, MinifiedString(s[2..]));
    } else {
      StringFixedIffClean(s[1..]);
      FirstSame(s, MinifiedString(s[1..]));
    }
  }

  lemma FirstSame(s: seq<byte>, t: seq<byte>)
    requires s != []
    ensures [s[0]] + t == s <==> t == s[1..]
  {
    assert ([s[0]] + t)[1..] == t;
  }

  lemma FirstTwoSame(s: seq<byte>, t: seq<byte>)
    requires |s| >= 2
    ensures s[..2] + t == s <==> t == s[2..]
  {
    assert (s[..2] + t)[2..] == t;
  }

  lemma {:induction false} NextIsFirst(s: seq<byte>)
    ensures NextKept(s) == if Minified(s) == [] then None else Some(Minified(s)[0])
    decreases |s|
  {
    hide MinifiedString;
    if s == [] {
    } else if Blank(s[0]) {
      NextIsFirst(s[1..]);
    } else if LineComment(s) {
      NextIsFirst(AfterLine(s[1..]));
    } else if BlockComment(s) && AfterBlock(s).Some? {
      NextIsFirst(AfterBlock(s).value);
    }
  }

  /**
   * The result has neither blank nor comment outside its literals, unless a slash that starts no comment
   * meets another.
   */
  lemma {:induction false} CleanIff(s: seq<byte>)
    ensures Clean(Minified(s)) <==> !SlashMeets(s)
    decreases |s|
  {
    hide MinifiedString, SlashMeetsString, AfterLine, AfterBlock, CleanString;
    if s == [] {
    } else if Blank(s[0]) {
      CleanIff(s[1..]);
    } else if LineComment(s) {
      CleanIff(AfterLine(s[1..]));
    } else if BlockComment(s) {
      if AfterBlock(s).Some? { CleanIff(AfterBlock(s).value); }
    } else if s[0] == QUOTE {
      CleanStringIff(s[1..]);
      CleanFirst(QUOTE, MinifiedString(s[1..]));
    } else {
      CleanIff(s[1..]);
      NextIsFirst(s[1..]);
      CleanFirst(s[0], Minified(s[1..]));
    }
  }

  lemma CleanFirst(b: byte, t: seq<byte>)
    requires !Blank(b)
    ensures Clean([b] + t) <==>
            if b == QUOTE then CleanString(t) else !(b == SLASH && t != [] && t[0] in [SLASH, STAR]) && Clean(t)
  {
    hide CleanString;
    assert ([b] + t)[1..] == t;
  }

  lemma CleanStringFirst(b: byte, t: seq<byte>)
    requires b != BACKSLASH || t == []
    ensures CleanString([b] + t) <==> if b == QUOTE then Clean(t) else CleanString(t)
  {
    hide Clean;
    assert ([b] + t)[1..] == t;
  }

  lemma CleanStringPair(s: seq<byte>, t: seq<byte>)
    requires |s| >= 2 && s[0] == BACKSLASH
    ensures CleanString(s[..2] + t) <==> CleanString(t)
  {
    hide Clean;
    assert (s[..2] + t)[2..] == t;
  }

  lemma {:induction false} CleanStringIff(s: seq<byte>)
    ensures CleanString(MinifiedString(s)) <==> !SlashMeetsString(s)
    decreases |s|
  {
    hide Minified, SlashMeets, Clean, CleanString;
    if s == [] {
      NothingClean();
    } else if s[0] == QUOTE {
      CleanIff(s[1..]);
      CleanStringFirst(QUOTE, Minified(s[1..]));
    } else if s[0] == BACKSLASH && |s| >= 2 {
      CleanStringIff(s[2..]);
      CleanStringPair(s, MinifiedString(s[2..]));
    } else {
      CleanStringIff(s[1..]);
      CleanStringFirst(s[0], MinifiedString(s[1..]));
    }
  }

  lemma NothingClean()
    ensures CleanString([])
  {
  }

  /** So minifying twice is minifying once, with that exception. */
  lemma TwiceIsOnceIff(s: seq<byte>)
    ensures Minified(Minified(s)) == Minified(s) <==> !SlashMeets(s)
  {
    CleanIff(s);
    FixedIffClean(Minified(s));
  }

  /** Two slashes with a blank between them become a comment. */
  lemma SlashesMeet()
    ensures SlashMeets([0x2F, 0x20, 0x2F]) && Minified([0x2F, 0x20, 0x2F]) == [0x2F, 0x2F]
    ensures Minified([0x2F, 0x2F]) == []
  {
    var s: seq<byte> := [0x2F, 0x20, 0x2F];
    assert s[1..] == [0x20, 0x2F] && [0x20, 0x2F][1..] == [0x2F];
    assert Minified([0x2F]) == [0x2F] && AfterLine([0x2F]) == [];
    assert [0x2F, 0x2F][1..] == [0x2F];
  }
}
