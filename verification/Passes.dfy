/** Where the two passes of parse_string stop, on any text. */
module Passes {
  import opened Bytes
  import opened Unicode
  import opened StringLiteral

  // ----- turn by turn, as the code goes

  /** What is left where the counting pass stops: a closing quote, or nothing. None if it runs past the end. */
  function CountStop(s: seq<byte>): Option<seq<byte>> {
    if s == [] || s[0] == QUOTE then Some(s)
    else if s[0] != BACKSLASH then CountStop(s[1..])
    else if |s| < 2 then None
    else CountStop(s[2..])
  }

  /** The bytes that one turn of the decoding pass takes, whatever they are; None if it runs past the end. */
  function Taken(s: seq<byte>): (n: Option<nat>)
    requires s != [] && s[0] != QUOTE
    ensures n.Some? ==> 1 <= n.value <= |s|
  {
    if s[0] != BACKSLASH then Some(1)
    else if |s| < 2 then None
    else if s[1] != LOWER_U then Some(2)
    else if |s| < 6 then None
    else if !HighSurrogate(HexValueAt(s, 2)) || |s| < 8 || s[6] != BACKSLASH || s[7] != LOWER_U then Some(6)
    else if |s| < 12 then None
    else Some(12)
  }

  function DecodeStop(s: seq<byte>): Option<seq<byte>> {
    if s == [] || s[0] == QUOTE then Some(s)
    else match Taken(s) case None => None case Some(n) => DecodeStop(s[n..])
  }

  // ----- byte by byte, both at once

  /** What the decoding pass is in the middle of. */
  datatype Phase = Start | Escape | Unit(left: nat)

  function NextPhase(p: Phase, b: byte): Phase {
    match p
    case Start => if b == BACKSLASH then Escape else Start
    case Escape => if b == LOWER_U then Unit(4) else Start
    case Unit(k) => if k <= 1 then Start else Unit(k - 1)
  }

  /**
   * One scan decides whether the passes meet: the first quote at which either of them would stop
   * is one at which both would, and if there is none, the text ends where both begin a turn.
   * `escaped` says that the counting pass skips the next byte.
   */
  predicate Meet(s: seq<byte>, escaped: bool, p: Phase) {
    if s == [] then !escaped && p == Start
    else if s[0] == QUOTE && (!escaped || p == Start) then !escaped && p == Start
    else Meet(s[1..], !escaped && s[0] == BACKSLASH, NextPhase(p, s[0]))
  }

  function CountFrom(s: seq<byte>, escaped: bool): (r: Option<seq<byte>>)
    ensures r.Some? ==> |r.value| <= |s|
  {
    if s == [] then if escaped then None else Some([])
    else if !escaped && s[0] == QUOTE then Some(s)
    else CountFrom(s[1..], !escaped && s[0] == BACKSLASH)
  }

  function DecodeFrom(s: seq<byte>, p: Phase): (r: Option<seq<byte>>)
    ensures r.Some? ==> |r.value| <= |s|
  {
    if s == [] then if p == Start then Some([]) else None
    else if p == Start && s[0] == QUOTE then Some(s)
    else DecodeFrom(s[1..], NextPhase(p, s[0]))
  }

  lemma {:induction false} MeetFrom(s: seq<byte>, escaped: bool, p: Phase)
    ensures Meet(s, escaped, p) <==> CountFrom(s, escaped).Some? && CountFrom(s, escaped) == DecodeFrom(s, p)
  {
    if s != [] { MeetFrom(s[1..], !escaped && s[0] == BACKSLASH, NextPhase(p, s[0])); }
  }

  lemma {:induction false} CountBytes(s: seq<byte>)
    ensures CountStop(s) == CountFrom(s, false)
    decreases |s|
  {
    if s != [] && s[0] != QUOTE {
      if s[0] != BACKSLASH {
        CountBytes(s[1..]);
      } else if |s| >= 2 {
        assert s[1..][1..] == s[2..];
        CountBytes(s[2..]);
      }
    }
  }

  /** The four bytes of a unit. */
  lemma {:induction false} SkipUnit(s: seq<byte>, k: nat)
    requires 1 <= k
    ensures DecodeFrom(s, Unit(k)) == if |s| < k then None else DecodeFrom(s[k..], Start)
    decreases k
  {
    if s != [] && k > 1 {
      SkipUnit(s[1..], k - 1);
      if |s| >= k { assert s[1..][k - 1..] == s[k..]; }
    }
  }

  lemma OneUnit(s: seq<byte>)
    requires |s| >= 2 && s[0] == BACKSLASH && s[1] == LOWER_U
    ensures DecodeFrom(s, Start) == if |s| < 6 then None else DecodeFrom(s[6..], Start)
  {
    assert s[1..][1..] == s[2..];
    assert DecodeFrom(s, Start) == DecodeFrom(s[1..], Escape) == DecodeFrom(s[2..], Unit(4));
    SkipUnit(s[2..], 4);
    if |s| >= 6 { assert s[2..][4..] == s[6..]; }
  }

  lemma {:induction false} DecodeBytes(s: seq<byte>)
    ensures DecodeStop(s) == DecodeFrom(s, Start)
    decreases |s|
  {
    if s != [] && s[0] != QUOTE {
      var n := Taken(s);
      TakenBytes(s);
      if n.Some? { DecodeBytes(s[n.value..]); }
    }
  }

  /** A pair of units takes as many bytes as the two taken one by one. */
  lemma TakenBytes(s: seq<byte>)
    requires s != [] && s[0] != QUOTE
    ensures DecodeFrom(s, Start) == match Taken(s) case None => None case Some(n) => DecodeFrom(s[n..], Start)
  {
    hide HexValueAt;
    if s[0] == BACKSLASH && |s| >= 2 {
      if s[1] == LOWER_U {
        OneUnit(s);
        if Taken(s) != Some(6) && |s| >= 8 {
          assert s[6..][0] == s[6] && s[6..][1] == s[7];
          OneUnit(s[6..]);
          if |s| >= 12 { assert s[6..][6..] == s[12..]; }
        }
      } else {
        assert s[1..][1..] == s[2..];
      }
    }
  }

  /** On any text, the two passes stop at the same quote, or both at its end, if and only if they meet. */
  lemma PassesExact(s: seq<byte>)
    ensures CountStop(s).Some? && CountStop(s) == DecodeStop(s) <==> Meet(s, false, Start)
  {
    CountBytes(s);
    DecodeBytes(s);
    MeetFrom(s, false, Start);
  }

  /** The counting pass of the parser is this one. */
  lemma {:induction false} CountIsStop(s: seq<byte>)
    ensures CountBody(s).Counted? <==> CountStop(s).Some?
    ensures CountStop(s).Some? ==>
              CountBody(s).rest == if CountStop(s).value == [] then [] else CountStop(s).value[1..]
    decreases |s|
  {
    if s != [] && s[0] != QUOTE {
      if s[0] != BACKSLASH { CountIsStop(s[1..]); } else if |s| >= 2 { CountIsStop(s[2..]); }
    }
  }

  /** So is the decoding pass, wherever the parser's is defined; and there the two meet. */
  lemma {:induction false} DecodeIsStop(s: seq<byte>)
    requires DecodeBody(s).Decoded?
    ensures DecodeStop(s).Some? && CountStop(s) == DecodeStop(s)
    ensures DecodeBody(s).rest == if DecodeStop(s).value == [] then [] else DecodeStop(s).value[1..]
    decreases |s|
  {
    if s != [] && s[0] != QUOTE {
      var t := DecodeTurn(s);
      TurnTaken(s);
      DecodeIsStop(s[t.len..]);
    }
  }

  /** A turn of the parser takes these bytes, and the counting pass passes them too. */
  lemma TurnTaken(s: seq<byte>)
    requires s != [] && s[0] != QUOTE && DecodeTurn(s).Turn?
    ensures Taken(s) == Some(DecodeTurn(s).len) && CountStop(s) == CountStop(s[DecodeTurn(s).len..])
  {
    hide Utf8, Combine, Hex4;
    if s[0] == BACKSLASH && s[1] == LOWER_U {
      UnitPassed(s);
      if DecodeTurn(s).len == 12 {
        assert s[6..][0] == s[6] && s[6..][1] == s[7] && s[6..][6..] == s[12..];
        assert UnitAt(s[6..], 2);
        UnitPassed(s[6..]);
      }
    }
  }

  lemma UnitPassed(s: seq<byte>)
    requires |s| >= 6 && s[0] == BACKSLASH && s[1] == LOWER_U && UnitAt(s, 2)
    ensures CountStop(s) == CountStop(s[6..])
  {
    assert CountStop(s) == CountStop(s[2..]);
    PlainPassed(s, 2);
    PlainPassed(s, 3);
    PlainPassed(s, 4);
    PlainPassed(s, 5);
  }

  lemma PlainPassed(s: seq<byte>, i: nat)
    requires i < |s| && InsideUnit(s[i])
    ensures CountStop(s[i..]) == CountStop(s[i + 1..])
  {
    assert s[i..][0] == s[i] && s[i..][1..] == s[i + 1..];
  }

  /**
   * Texts on which they part, for example one that begins with \u and a quote: the first pass
   * stops at that quote, the second is never at it.
   */
  lemma QuoteInUnit(s: seq<byte>)
    requires |s| >= 3 && s[0] == BACKSLASH && s[1] == LOWER_U && s[2] == QUOTE
    ensures CountStop(s) == Some(s[2..]) && DecodeStop(s) != Some(s[2..]) && !Meet(s, false, Start)
  {
    assert CountStop(s) == CountStop(s[2..]) && s[2..][0] == QUOTE;
    DecodeBytes(s);
    OneUnit(s);
    PassesExact(s);
  }
}
