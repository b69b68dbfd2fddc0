/** The texts cJSON accepts and the value each denotes: parse_value, parse_array, parse_object. */
module Parsing {
  import opened Bytes
  import opened Json
  import opened StringLiteral
  import opened Numbers

  /**
   * Reject is a null return. Malformed marks texts with an escape that runs past the
   * terminator, or a quote or backslash among the four bytes of a \u.
   */
  datatype Parsed = Parsed(value: Value, rest: seq<byte>) | Reject | Malformed

  datatype ParsedItems = ParsedItems(items: Items, rest: seq<byte>) | RejectItems | MalformedItems

  /** Jump over whitespace and every other control byte. */
  function Skip(s: seq<byte>): (r: seq<byte>)
    ensures |r| <= |s|
    ensures r == [] || r[0] > SPACE || r[0] == 0
  {
    if s != [] && 0 < s[0] <= SPACE then Skip(s[1..]) else s
  }

  function ParseValue(s: seq<byte>): (r: Parsed)
    ensures r.Parsed? ==> |r.rest| < |s| && s[0] > SPACE
    decreases |s|, 1
  {
    if NULL_TEXT <= s then Parsed(Null, s[4..])
    else if FALSE_TEXT <= s then Parsed(False, s[5..])
    else if TRUE_TEXT <= s then Parsed(True, s[4..])
    else if Starts(s, QUOTE) then
      var d := DecodeBody(s[1..]);
      if d.BadEscape? then Malformed else Parsed(String(d.text), d.rest)
    else if StartsNumber(s) then
      var n := ParseNumber(s);
      Parsed(Number(n.value), n.rest)
    else if Starts(s, LBRACKET) then ParseArray(s)
    else if Starts(s, LBRACE) then ParseObject(s)
    else Reject
  }

  function ParseArray(s: seq<byte>): (r: Parsed)
    requires Starts(s, LBRACKET)
    ensures r.Parsed? ==> |r.rest| < |s|
    decreases |s|, 0
  {
    var t := Skip(s[1..]);
    if Starts(t, RBRACKET) then Parsed(Array(Nil), t[1..])
    else match ParseElems(t)
      case ParsedItems(l, rest) => Parsed(Array(l), rest)
      case RejectItems => Reject
      case MalformedItems => Malformed
  }

  function ParseObject(s: seq<byte>): (r: Parsed)
    requires Starts(s, LBRACE)
    ensures r.Parsed? ==> |r.rest| < |s|
    decreases |s|, 0
  {
    var t := Skip(s[1..]);
    if Starts(t, RBRACE) then Parsed(Object(Nil), t[1..])
    else match ParseMembers(t)
      case ParsedItems(l, rest) => Parsed(Object(l), rest)
      case RejectItems => Reject
      case MalformedItems => Malformed
  }

  /** The elements from here to the closing bracket. */
  function ParseElems(s: seq<byte>): (r: ParsedItems)
    ensures r.ParsedItems? ==> |r.rest| < |s|
    decreases |s|, 2
  {
    match ParseValue(Skip(s))
    case Reject => RejectItems
    case Malformed => MalformedItems
    case Parsed(v, rest) => AfterItem(None, v, Skip(rest), RBRACKET)
  }

  /** The members from here to the closing brace. */
  function ParseMembers(s: seq<byte>): (r: ParsedItems)
    ensures r.ParsedItems? ==> |r.rest| < |s|
    decreases |s|, 2
  {
    var t := Skip(s);
    if !Starts(t, QUOTE) then RejectItems
    else
      var d := DecodeBody(t[1..]);
      if d.BadEscape? then MalformedItems
      else
        var u := Skip(d.rest);
        if !Starts(u, COLON) then RejectItems
        else match ParseValue(Skip(u[1..]))
          case Reject => RejectItems
          case Malformed => MalformedItems
          case Parsed(v, rest) => AfterItem(Some(d.text), v, Skip(rest), RBRACE)
  }

  /** Behind an item comes a comma and more items, or the closing byte. */
  function AfterItem(key: Option<seq<byte>>, v: Value, t: seq<byte>, close: byte): (r: ParsedItems)
    ensures r.ParsedItems? ==> |r.rest| < |t|
    decreases |t| + 1, 0
  {
    if Starts(t, COMMA) then
      match if close == RBRACKET then ParseElems(t[1..]) else ParseMembers(t[1..])
      case ParsedItems(l, rest) => ParsedItems(Cons(key, v, l), rest)
      case e => e
    else if Starts(t, close) then ParsedItems(Cons(key, v, Nil), t[1..])
    else RejectItems
  }

  /** cJSON_ParseWithOpts with null termination required, applied to a whole text. */
  function ParseText(s: seq<byte>): Parsed {
    match ParseValue(Skip(s))
    case Parsed(v, rest) => if Skip(rest) == [] then Parsed(v, []) else Reject
    case r => r
  }

  /** The first byte selects the branch of parse_value. */
  lemma Dispatch(s: seq<byte>)
    ensures Starts(s, LBRACKET) ==> ParseValue(s) == ParseArray(s)
    ensures Starts(s, LBRACE) ==> ParseValue(s) == ParseObject(s)
    ensures StartsNumber(s) ==> ParseValue(s) == Parsed(Number(ParseNumber(s).value), ParseNumber(s).rest)
  {
  }
}
