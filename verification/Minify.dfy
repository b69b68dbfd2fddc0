/** cJSON_Minify: the text it leaves behind, and the in-place loop that produces it. */
module Minify {
  import opened Bytes

  predicate Blank(b: byte) { b == SPACE || b == TAB || b == CR || b == LF }

  predicate LineComment(s: seq<byte>) { |s| >= 2 && s[0] == SLASH && s[1] == SLASH }

  predicate BlockComment(s: seq<byte>) { |s| >= 2 && s[0] == SLASH && s[1] == STAR }

  /** From inside a line comment to its newline, or to the end of the text. */
  function AfterLine(s: seq<byte>): (r: seq<byte>)
    ensures |r| <= |s|
  {
    if s == [] || s[0] == LF then s else AfterLine(s[1..])
  }

  predicate CloseAt(s: seq<byte>) { |s| >= 2 && s[0] == STAR && s[1] == SLASH }

  /** From the start of a block comment to behind its closing star and slash, if it has one. */
  function AfterBlock(s: seq<byte>): (r: Option<seq<byte>>)
    ensures r.Some? ==> |r.value| + 2 <= |s|
  {
    if s == [] then None
    else if CloseAt(s) then Some(s[2..])
    else AfterBlock(s[1..])
  }

  /** The minified text, read from outside string literals. */
  function Minified(s: seq<byte>): seq<byte>
    decreases |s|
  {
    if s == [] then []
    else if Blank(s[0]) then Minified(s[1..])
    else if LineComment(s) then Minified(AfterLine(s[1..]))
    else if BlockComment(s) then
      match AfterBlock(s) case None => [] case Some(r) => Minified(r)
    else if s[0] == QUOTE then [QUOTE] + MinifiedString(s[1..])
    else [s[0]] + Minified(s[1..])
  }

  /** The minified text, read from inside a string literal. */
  function MinifiedString(s: seq<byte>): seq<byte>
    decreases |s|
  {
    if s == [] then []
    else if s[0] == QUOTE then [QUOTE] + Minified(s[1..])
    else if s[0] == BACKSLASH && |s| >= 2 then s[..2] + MinifiedString(s[2..])
    else [s[0]] + MinifiedString(s[1..])
  }

  /** Every string literal and every block comment of the text is closed. */
  predicate Closed(s: seq<byte>)
    decreases |s|
  {
    if s == [] then true
    else if Blank(s[0]) then Closed(s[1..])
    else if LineComment(s) then Closed(AfterLine(s[1..]))
    else if BlockComment(s) then
      match AfterBlock(s) case None => false case Some(r) => Closed(r)
    else if s[0] == QUOTE then ClosedString(s[1..])
    else Closed(s[1..])
  }

  predicate ClosedString(s: seq<byte>)
    decreases |s|
  {
    if s == [] then false
    else if s[0] == QUOTE then Closed(s[1..])
    else if s[0] == BACKSLASH then |s| >= 2 && ClosedString(s[2..])
    else ClosedString(s[1..])
  }

  /** Minifying makes no text longer, and a C string of a C string. */
  lemma {:induction false} MinifiedNulFree(s: seq<byte>)
    ensures |Minified(s)| <= |s| && Minified([]) == []
    ensures NulFree(s) ==> NulFree(Minified(s))
    decreases |s|
  {
    hide MinifiedString;
    if s == [] {
    } else if Blank(s[0]) {
      MinifiedNulFree(s[1..]);
    } else if LineComment(s) {
      AfterLineSuffix(s[1..]);
      MinifiedNulFree(AfterLine(s[1..]));
    } else if BlockComment(s) {
      AfterBlockSuffix(s);
      if AfterBlock(s).Some? { MinifiedNulFree(AfterBlock(s).value); }
    } else if s[0] == QUOTE {
      MinifiedStringNulFree(s[1..]);
    } else {
      MinifiedNulFree(s[1..]);
    }
  }

  lemma {:induction false} MinifiedStringNulFree(s: seq<byte>)
    ensures |MinifiedString(s)| <= |s|
    ensures NulFree(s) ==> NulFree(MinifiedString(s))
    decreases |s|
  {
    hide Minified;
    if s == [] {
    } else if s[0] == QUOTE {
      MinifiedNulFree(s[1..]);
    } else if s[0] == BACKSLASH && |s| >= 2 {
      MinifiedStringNulFree(s[2..]);
    } else {
      MinifiedStringNulFree(s[1..]);
    }
  }

  lemma {:induction false} AfterLineSuffix(s: seq<byte>)
    ensures AfterLine(s) == s[|s| - |AfterLine(s)|..]
  {
    if s != [] && s[0] != LF { AfterLineSuffix(s[1..]); }
  }

  lemma {:induction false} AfterBlockSuffix(s: seq<byte>)
    ensures var r := AfterBlock(s); r.Some? ==> r.value == s[|s| - |r.value|..]
  {
    if s != [] && !CloseAt(s) { AfterBlockSuffix(s[1..]); }
  }

  // ----- the loop

  /**
   * Reading has reached index `r` of the text and writing index `into`, which is not beyond it:
   * what is still to be read is untouched, and what is written completes to `goal` with `todo`.
   */
  ghost predicate Progress(json: array<byte>, text: seq<byte>, into: nat, r: nat, todo: seq<byte>, goal: seq<byte>)
    reads json
  {
    into <= r && Unread(json, text, r) &&
    into <= |goal| && (forall i :: 0 <= i < into ==> json[i] == goal[i]) && goal[into..] == todo
  }

  /** `*into++ = *json++` */
  method CopyDown(json: array<byte>, ghost text: seq<byte>, into: nat, r: nat, ghost todo: seq<byte>,
                  ghost goal: seq<byte>)
    requires r < |text| && Progress(json, text, into, r, [text[r]] + todo, goal)
    modifies json
    ensures Progress(json, text, into + 1, r + 1, todo, goal)
    ensures forall i :: |text| < i < json.Length ==> json[i] == old(json[i])
  {
    json[into] := json[r];
    assert goal[into] == goal[into..][0] && goal[into + 1..] == goal[into..][1..];
  }

  /** The string-literal branch: copies up to and including the closing quote. */
  method CopyLiteral(json: array<byte>, ghost text: seq<byte>, into0: nat, r0: nat, ghost goal: seq<byte>)
    returns (into: nat, r: nat)
    requires r0 < |text| && text[r0] == QUOTE && ClosedString(text[r0 + 1..])
    requires Progress(json, text, into0, r0, [QUOTE] + MinifiedString(text[r0 + 1..]), goal)
    modifies json
    ensures r0 < r <= |text| && Progress(json, text, into, r, Minified(text[r..]), goal) && Closed(text[r..])
    ensures forall i :: |text| < i < json.Length ==> json[i] == old(json[i])
  {
    hide Minified, MinifiedString, Closed, ClosedString;
    into, r := into0, r0;
    CopyDown(json, text, into, r, MinifiedString(text[r + 1..]), goal);
    into, r := into + 1, r + 1;
    while json[r] != 0 && json[r] != QUOTE
      invariant 0 <= into <= r && r0 < r <= |text|
      invariant Progress(json, text, into, r, MinifiedString(text[r..]), goal)
      invariant ClosedString(text[r..])
      invariant forall i :: |text| < i < json.Length ==> json[i] == old(json[i])
      decreases |text| - r
    {
      into, r := CopyInside(json, text, into, r, goal);
    }
    InsideLiteral(text, r);
    CopyDown(json, text, into, r, Minified(text[r + 1..]), goal);
    into, r := into + 1, r + 1;
  }

  /** One turn: a byte, or a backslash and the byte behind it. */
  method CopyInside(json: array<byte>, ghost text: seq<byte>, into0: nat, r0: nat, ghost goal: seq<byte>)
    returns (into: nat, r: nat)
    requires r0 < |text| && ClosedString(text[r0..]) && text[r0] != QUOTE
    requires Progress(json, text, into0, r0, MinifiedString(text[r0..]), goal)
    modifies json
    ensures into <= r && r0 < r <= |text| && Progress(json, text, into, r, MinifiedString(text[r..]), goal)
    ensures ClosedString(text[r..])
    ensures forall i :: |text| < i < json.Length ==> json[i] == old(json[i])
  {
    hide MinifiedString, ClosedString;
    into, r := into0, r0;
    InsideLiteral(text, r);
    if json[r] == BACKSLASH {
      CopyDown(json, text, into, r, [text[r + 1]] + MinifiedString(text[r + 2..]), goal);
      into, r := into + 1, r + 1;
    }
    CopyDown(json, text, into, r, MinifiedString(text[r + 1..]), goal);
    into, r := into + 1, r + 1;
  }

  /** What one turn of the literal loop leaves to do. */
  lemma InsideLiteral(text: seq<byte>, r: nat)
    requires r <= |text| && ClosedString(text[r..])
    ensures r < |text| &&
      if text[r] == QUOTE then
        Closed(text[r + 1..]) && MinifiedString(text[r..]) == [QUOTE] + Minified(text[r + 1..])
      else if text[r] == BACKSLASH then
        r + 2 <= |text| && ClosedString(text[r + 2..]) &&
        MinifiedString(text[r..]) == [text[r]] + ([text[r + 1]] + MinifiedString(text[r + 2..]))
      else
        ClosedString(text[r + 1..]) && MinifiedString(text[r..]) == [text[r]] + MinifiedString(text[r + 1..])
  {
    hide Minified, Closed, MinifiedString;
    var s := text[r..];
    NotEmpty(s);
    hide ClosedString;
    assert s[0] == text[r] && s[1..] == text[r + 1..];
    if text[r] == BACKSLASH {
      PairInside(s);
      assert s[1] == text[r + 1] && s[2..] == text[r + 2..];
    } else {
      ByteInside(s);
    }
  }

  lemma NotEmpty(s: seq<byte>)
    requires ClosedString(s)
    ensures s != []
  {
  }

  lemma ByteInside(s: seq<byte>)
    requires s != [] && ClosedString(s) && s[0] != BACKSLASH
    ensures if s[0] == QUOTE then Closed(s[1..]) && MinifiedString(s) == [QUOTE] + Minified(s[1..])
            else ClosedString(s[1..]) && MinifiedString(s) == [s[0]] + MinifiedString(s[1..])
  {
    hide Minified, Closed;
  }

  lemma PairInside(s: seq<byte>)
    requires s != [] && ClosedString(s) && s[0] == BACKSLASH
    ensures |s| >= 2 && ClosedString(s[2..]) && MinifiedString(s) == [s[0]] + ([s[1]] + MinifiedString(s[2..]))
  {
    PairKept(s);
    hide Minified, MinifiedString, Closed, ClosedString;
    FirstTwo(s, MinifiedString(s[2..]));
  }

  lemma PairKept(s: seq<byte>)
    requires s != [] && ClosedString(s) && s[0] == BACKSLASH
    ensures |s| >= 2 && ClosedString(s[2..]) && MinifiedString(s) == s[..2] + MinifiedString(s[2..])
  {
    hide Minified, Closed;
  }

  lemma FirstTwo(s: seq<byte>, t: seq<byte>)
    requires |s| >= 2
    ensures s[..2] + t == [s[0]] + ([s[1]] + t)
  {
  }

  /** What one turn of the outer loop leaves to do. */
  lemma Outside(text: seq<byte>, r: nat)
    requires r < |text| && Closed(text[r..])
    ensures text[r..][0] == text[r] && (r + 1 < |text| ==> text[r..][1] == text[r + 1])
    ensures var s := text[r..];
      if Blank(text[r]) then Closed(text[r + 1..]) && Minified(s) == Minified(text[r + 1..])
      else if LineComment(s) then Closed(AfterLine(s)) && Minified(s) == Minified(AfterLine(s))
      else if BlockComment(s) then
        AfterBlock(s).Some? && Closed(AfterBlock(s).value) && Minified(s) == Minified(AfterBlock(s).value)
      else if text[r] == QUOTE then
        ClosedString(text[r + 1..]) && Minified(s) == [QUOTE] + MinifiedString(text[r + 1..])
      else Closed(text[r + 1..]) && Minified(s) == [text[r]] + Minified(text[r + 1..])
  {
    hide MinifiedString, ClosedString;
    assert text[r..][1..] == text[r + 1..];
  }

  /** The line-comment loop. */
  method SkipLine(json: array<byte>, ghost text: seq<byte>, r0: nat) returns (r: nat)
    requires r0 < |text| && text[r0] != LF && Unread(json, text, r0)
    ensures r0 < r <= |text| && text[r..] == AfterLine(text[r0..])
  {
    r := r0;
    while json[r] != 0 && json[r] != LF
      invariant r0 <= r <= |text| && AfterLine(text[r..]) == AfterLine(text[r0..])
      decreases |text| - r
    {
      assert text[r..][1..] == text[r + 1..];
      r := r + 1;
    }
  }

  /** The block-comment loop, and the two bytes it steps over behind it. */
  method SkipBlock(json: array<byte>, ghost text: seq<byte>, r0: nat) returns (r: nat)
    requires Unread(json, text, r0) && AfterBlock(text[r0..]).Some?
    ensures r0 < r <= |text| && AfterBlock(text[r0..]) == Some(text[r..])
  {
    r := r0;
    while json[r] != 0 && !(json[r] == STAR && json[r + 1] == SLASH)
      invariant r0 <= r <= |text| && AfterBlock(text[r..]) == AfterBlock(text[r0..])
      decreases |text| - r
    {
      assert text[r..][1..] == text[r + 1..];
      r := r + 1;
    }
    assert text[r..][2..] == text[r + 2..];
    r := r + 2;
  }

  /**
   * cJSON_Minify on a C string whose literals and block comments are closed: nothing behind the
   * old terminator is touched.
   */
  method MinifyInPlace(json: array<byte>, ghost text: seq<byte>)
    requires HoldsAt(json, 0, text) && Closed(text)
    modifies json
    ensures HoldsAt(json, 0, Minified(text)) && |Minified(text)| <= |text|
    ensures forall i :: |text| < i < json.Length ==> json[i] == old(json[i])
  {
    hide Minified, MinifiedString, Closed, ClosedString, AfterLine, AfterBlock;
    var into, r := 0, 0;
    ghost var goal := Minified(text);
    MinifiedNulFree(text);
    assert text[0..] == text;
    while json[r] != 0
      invariant 0 <= into <= r <= |text|
      invariant Progress(json, text, into, r, Minified(text[r..]), goal) && Closed(text[r..])
      invariant forall i :: |text| < i < json.Length ==> json[i] == old(json[i])
      decreases |text| - r
    {
      Outside(text, r);
      if json[r] == SPACE || json[r] == TAB || json[r] == CR || json[r] == LF {
        r := r + 1;
      } else if json[r] == SLASH && json[r + 1] == SLASH {
        r := SkipLine(json, text, r);
      } else if json[r] == SLASH && json[r + 1] == STAR {
        r := SkipBlock(json, text, r);
      } else if json[r] == QUOTE {
        into, r := CopyLiteral(json, text, into, r, goal);
      } else {
        CopyDown(json, text, into, r, Minified(text[r + 1..]), goal);
        into, r := into + 1, r + 1;
      }
    }
    assert text[r..] == [] && goal[into..] == [];
    json[into] := 0;
    assert json[..into] == goal;
  }
}
