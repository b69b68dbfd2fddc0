/** Texts that are refused: what has to stand between the parts of an array or object. */
module GrammarReject {
  import opened Bytes
  import opened Json
  import opened StringLiteral
  import opened Numbers
  import opened Parsing
  import opened GrammarParse
  import G = Grammar

  /** Control bytes count as blanks, all of them but the terminator. */
  lemma {:induction false} ControlsSkipped(w: seq<byte>, s: seq<byte>)
    requires forall i :: 0 <= i < |w| ==> 0x01 <= w[i] <= 0x20
    ensures Skip(w + s) == Skip(s) && ParseText(w + s) == ParseText(s)
  {
    hide ParseValue;
    if w == [] {
      assert w + s == s;
    } else {
      assert (w + s)[1..] == w[1..] + s;
      ControlsSkipped(w[1..], s);
    }
  }

  /** No value starts here: not a quote, a minus, a digit, an opening bracket or brace, nor one of the three words. */
  predicate NoValue(s: seq<byte>) {
    s == [] ||
    (s[0] !in [0x22, 0x2D, 0x5B, 0x7B] && !(0x30 <= s[0] <= 0x39) &&
     !([0x6E, 0x75, 0x6C, 0x6C] <= s) && !([0x74, 0x72, 0x75, 0x65] <= s) && !([0x66, 0x61, 0x6C, 0x73, 0x65] <= s))
  }

  lemma ValueRefused(s: seq<byte>)
    requires NoValue(s)
    ensures ParseValue(s) == Reject
  {
  }

  lemma TextRefused(s: seq<byte>)
    requires NoValue(s) && (s == [] || s[0] > 0x20)
    ensures ParseText(s) == Reject
  {
    ValueRefused(s);
  }

  // ----- arrays

  /** Neither a comma nor the closing byte. */
  predicate NoSeparator(z: seq<byte>, close: byte) { z == [] || (z[0] != 0x2C && z[0] != close) }

  lemma ElementRefused(t: seq<byte>, v: Value, y: seq<byte>, z: seq<byte>)
    requires ParseValue(Skip(t)) == Parsed(v, y) && Skip(y) == z
    requires NoSeparator(z, 0x5D) || (z[0] == 0x2C && ParseElems(z[1..]).RejectItems?)
    ensures ParseElems(t) == RejectItems
  {
    hide ParseValue;
  }

  /** Elements, and then neither comma nor bracket, or a comma with no element behind it. */
  lemma {:induction false} ElementsRefused(es: G.Elements, z: seq<byte>)
    requires G.ValidElements(es, false) && Ends(z) && Skip(z) == z
    requires NoSeparator(z, 0x5D) || (z[0] == 0x2C && ParseElems(z[1..]).RejectItems?)
    ensures var t := G.WrittenElements(es) + z; ParseElems(t) == RejectItems && !Starts(Skip(t), RBRACKET)
    decreases es
  {
    hide G.WrittenElement, G.Meaning, ParseValue, ParseElems, G.WrittenGap;
    var e := es.element;
    match es
    case LastElement(_) =>
      ElementRead(e, z);
      ElementRefused(G.WrittenElements(es) + z, G.Meaning(e.value), G.WrittenGap(e.after) + z, z);
    case MoreElements(_, others) =>
      var u := G.WrittenElements(others) + z;
      var y := [0x2C] + u;
      assert G.WrittenElements(es) + z == G.WrittenElement(e) + y && y[1..] == u;
      hide G.WrittenElements;
      ElementsRefused(others, z);
      ElementRead(e, y);
      ElementRefused(G.WrittenElement(e) + y, G.Meaning(e.value), G.WrittenGap(e.after) + y, y);
  }

  lemma ArrayRefused(t: seq<byte>)
    requires !Starts(Skip(t), RBRACKET) && ParseElems(t) == RejectItems
    ensures ParseValue([0x5B] + t) == Reject
  {
    FromSkip(t);
    hide ParseElems;
    Dispatch([0x5B] + t);
    assert ([0x5B] + t)[1..] == t;
    hide ParseValue;
  }

  /** An array that is cut short, or whose elements are not separated by a comma. */
  lemma ArrayUnfinished(es: G.Elements, z: seq<byte>)
    requires G.ValidElements(es, false) && Ends(z) && Skip(z) == z && NoSeparator(z, 0x5D)
    ensures ParseValue([0x5B] + (G.WrittenElements(es) + z)) == Reject
  {
    hide ParseElems, G.WrittenElements, ParseValue, Skip;
    ElementsRefused(es, z);
    ArrayRefused(G.WrittenElements(es) + z);
  }

  /** A comma in front of anything that is no value, a closing bracket for one. */
  lemma ArrayTrailingComma(es: G.Elements, z: seq<byte>)
    requires G.ValidElements(es, false) && NoValue(Skip(z))
    ensures ParseValue([0x5B] + (G.WrittenElements(es) + ([0x2C] + z))) == Reject
  {
    ValueRefused(Skip(z));
    hide ParseValue;
    assert ([0x2C] + z)[1..] == z && ParseElems(z) == RejectItems;
    hide ParseElems, G.WrittenElements;
    ElementsRefused(es, [0x2C] + z);
    ArrayRefused(G.WrittenElements(es) + ([0x2C] + z));
  }

  // ----- objects

  lemma MemberRefused(t: seq<byte>, name: seq<byte>, w: seq<byte>, v: Value, y: seq<byte>, z: seq<byte>)
    requires Starts(Skip(t), QUOTE) && DecodeBody(Skip(t)[1..]) == Decoded(name, w)
    requires Starts(Skip(w), 0x3A) && ParseValue(Skip(Skip(w)[1..])) == Parsed(v, y) && Skip(y) == z
    requires NoSeparator(z, 0x7D) || (z[0] == 0x2C && ParseMembers(z[1..]).RejectItems?)
    ensures ParseMembers(t) == RejectItems
  {
    hide ParseValue, DecodeBody;
  }

  lemma MemberEndsBadly(m: G.Member, z: seq<byte>)
    requires G.ValidMember(m, false) && Ends(z) && Skip(z) == z
    requires NoSeparator(z, 0x7D) || (z[0] == 0x2C && ParseMembers(z[1..]).RejectItems?)
    ensures var t := G.WrittenMember(m) + z; ParseMembers(t) == RejectItems && !Starts(Skip(t), RBRACE)
  {
    hide G.WrittenMember, G.Meaning, ParseValue, ParseMembers, G.WrittenGap, DecodeBody, G.Written, G.CharsMeaning;
    hide Skip;
    MemberRead(m, z);
    var y := G.WrittenGap(m.after) + z;
    var u := G.WrittenGap(m.behindColon) + (G.Written(m.value) + y);
    var w := G.WrittenGap(m.behindKey) + ([0x3A] + u);
    MemberRefused(G.WrittenMember(m) + z, G.CharsMeaning(m.key), w, G.Meaning(m.value), y, z);
  }

  /** Members, and then neither comma nor brace, or a comma with no member behind it. */
  lemma {:induction false} MembersRefused(ms: G.Members, z: seq<byte>)
    requires G.ValidMembers(ms, false) && Ends(z) && Skip(z) == z
    requires NoSeparator(z, 0x7D) || (z[0] == 0x2C && ParseMembers(z[1..]).RejectItems?)
    ensures var t := G.WrittenMembers(ms) + z; ParseMembers(t) == RejectItems && !Starts(Skip(t), RBRACE)
    decreases ms
  {
    hide G.WrittenMember, G.ValidMember, ParseMembers;
    var m := ms.member;
    match ms
    case LastMember(_) => MemberEndsBadly(m, z);
    case MoreMembers(_, rest) =>
      var u := G.WrittenMembers(rest) + z;
      var y := [0x2C] + u;
      assert G.WrittenMembers(ms) + z == G.WrittenMember(m) + y && y[1..] == u;
      hide G.WrittenMembers;
      MembersRefused(rest, z);
      MemberEndsBadly(m, y);
  }

  lemma ObjectRefused(t: seq<byte>)
    requires !Starts(Skip(t), RBRACE) && ParseMembers(t) == RejectItems
    ensures ParseValue([0x7B] + t) == Reject
  {
    FromSkip(t);
    hide ParseMembers;
    Dispatch([0x7B] + t);
    assert ([0x7B] + t)[1..] == t;
    hide ParseValue;
  }

  /** An object that is cut short, or whose members are not separated by a comma. */
  lemma ObjectUnfinished(ms: G.Members, z: seq<byte>)
    requires G.ValidMembers(ms, false) && Ends(z) && Skip(z) == z && NoSeparator(z, 0x7D)
    ensures ParseValue([0x7B] + (G.WrittenMembers(ms) + z)) == Reject
  {
    hide ParseMembers, G.WrittenMembers, ParseValue, Skip;
    MembersRefused(ms, z);
    ObjectRefused(G.WrittenMembers(ms) + z);
  }

  /** A comma in front of anything but a quote, a closing brace for one. */
  lemma ObjectTrailingComma(ms: G.Members, z: seq<byte>)
    requires G.ValidMembers(ms, false) && (Skip(z) == [] || Skip(z)[0] != 0x22)
    ensures ParseValue([0x7B] + (G.WrittenMembers(ms) + ([0x2C] + z))) == Reject
  {
    hide ParseValue;
    assert ([0x2C] + z)[1..] == z && ParseMembers(z) == RejectItems;
    hide ParseMembers, G.WrittenMembers;
    MembersRefused(ms, [0x2C] + z);
    ObjectRefused(G.WrittenMembers(ms) + ([0x2C] + z));
  }

  /** A first key that is no string. */
  lemma KeyMissing(z: seq<byte>)
    requires Skip(z) == [] || Skip(z)[0] !in [0x22, 0x7D]
    ensures ParseValue([0x7B] + z) == Reject
  {
    hide ParseValue;
    assert ParseMembers(z) == RejectItems;
    hide ParseMembers;
    ObjectRefused(z);
  }

  /** A key without a colon behind it. */
  lemma ColonMissing(key: seq<G.Char>, z: seq<byte>)
    requires G.ValidChars(key) && (Skip(z) == [] || Skip(z)[0] != 0x3A)
    ensures ParseValue([0x7B] + (G.WrittenString(key) + z)) == Reject
  {
    var t := G.WrittenString(key) + z;
    StringRead(key, z);
    KeyHead(t);
    hide ParseValue, DecodeBody, G.WrittenString, G.ValidChars;
    assert ParseMembers(t) == RejectItems;
    hide ParseMembers;
    ObjectRefused(t);
  }

  /** A key and a colon without a value behind them. */
  lemma MemberValueMissing(key: seq<G.Char>, z: seq<byte>)
    requires G.ValidChars(key) && NoValue(Skip(z))
    ensures ParseValue([0x7B] + (G.WrittenString(key) + ([0x3A] + z))) == Reject
  {
    var t := G.WrittenString(key) + ([0x3A] + z);
    StringRead(key, [0x3A] + z);
    KeyHead(t);
    ValueRefused(Skip(z));
    assert Skip([0x3A] + z) == [0x3A] + z && ([0x3A] + z)[1..] == z;
    hide ParseValue, DecodeBody, G.WrittenString, G.ValidChars, NoValue;
    assert ParseMembers(t) == RejectItems;
    hide ParseMembers;
    ObjectRefused(t);
  }
}
