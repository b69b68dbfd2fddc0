/** The recursive-descent parser: it reads a NUL-terminated text and links fresh items. */
module Parser {
  import opened Bytes
  import opened Unicode
  import opened StringLiteral
  import opened Numbers
  import opened Parsing
  import opened Tree
  import opened Blocks
  import opened CStrings

  lemma Rest(s: seq<byte>, i: nat)
    requires i <= |s|
    ensures |s[i..]| == |s| - i
    ensures i < |s| ==> s[i..][0] == s[i] && s[i..][1..] == s[i + 1..]
    ensures i + 1 < |s| ==> s[i..][1] == s[i + 1]
  {
  }

  /** skip */
  method SkipAt(text: array<byte>, i: nat, ghost s: seq<byte>) returns (j: nat)
    requires Unread(text, s, 0) && i <= |s|
    ensures i <= j <= |s| && s[j..] == Skip(s[i..])
  {
    j := i;
    while text[j] != 0 && text[j] <= 32
      invariant i <= j <= |s| && Skip(s[j..]) == Skip(s[i..])
      decreases |s| - j
    {
      Rest(s, j);
      j := j + 1;
    }
    Rest(s, j);
  }

  // ----- numbers

  /** A digit loop of parse_number. */
  method ReadDigits(text: array<byte>, i: nat, acc0: nat, ghost s: seq<byte>) returns (acc: nat, count: nat, j: nat)
    requires Unread(text, s, 0) && i <= |s|
    ensures i <= j <= |s| && Digits(s[i..], acc0) == Run(acc, count, s[j..])
  {
    acc, count, j := acc0, 0, i;
    while text[j] >= 0x30 && text[j] <= 0x39
      invariant i <= j <= |s|
      invariant var r := Digits(s[j..], acc); Digits(s[i..], acc0) == Run(r.acc, r.count + count, r.rest)
      decreases |s| - j
    {
      Rest(s, j);
      acc, count, j := acc * 10 + (text[j] - 0x30), count + 1, j + 1;
    }
    Rest(s, j);
  }

  method ReadInteger(text: array<byte>, i: nat, ghost s: seq<byte>) returns (n: nat, j: nat)
    requires Unread(text, s, 0) && i <= |s|
    ensures i <= j <= |s| && IntegerPart(s[i..]).acc == n && IntegerPart(s[i..]).rest == s[j..]
  {
    n, j := 0, i;
    Rest(s, i);
    if text[j] == 0x30 { j := j + 1; }
    Rest(s, j);
    if text[j] >= 0x31 && text[j] <= 0x39 {
      var c;
      n, c, j := ReadDigits(text, j, 0, s);
    }
  }

  method ReadFraction(text: array<byte>, i: nat, n0: nat, ghost s: seq<byte>) returns (n: nat, scale: int, j: nat)
    requires Unread(text, s, 0) && i <= |s|
    ensures i <= j <= |s| && scale <= 0 && FractionPart(s[i..], n0) == Run(n, 0 - scale, s[j..])
  {
    n, scale, j := n0, 0, i;
    Rest(s, i);
    if text[j] == DOT && text[j + 1] >= 0x30 && text[j + 1] <= 0x39 {
      var digits;
      n, digits, j := ReadDigits(text, j + 1, n0, s);
      scale := scale - digits;
    }
  }

  method ReadExponent(text: array<byte>, i: nat, ghost s: seq<byte>) returns (e: int, j: nat)
    requires Unread(text, s, 0) && i <= |s|
    ensures i <= j <= |s| && ExponentPart(s[i..]) == Exponent(e, s[j..])
  {
    e, j := 0, i;
    Rest(s, i);
    if text[j] == 0x65 || text[j] == 0x45 {
      j := j + 1;
      Rest(s, j);
      var signsubscale: int := 1;
      if text[j] == PLUS {
        j := j + 1;
      } else if text[j] == MINUS {
        signsubscale := -1;
        j := j + 1;
      }
      var subscale, c;
      subscale, c, j := ReadDigits(text, j, 0, s);
      e := signsubscale * subscale;
    }
  }

  /** (int)d rounds toward zero. */
  function Truncate(d: real): (t: int)
    ensures d >= 0.0 ==> 0.0 <= t as real <= d < t as real + 1.0
    ensures d <= 0.0 ==> t as real - 1.0 < d <= t as real <= 0.0
  {
    if d >= 0.0 then d.Floor else -((-d).Floor)
  }

  /** parse_number */
  method ParseNumberItem(item: Node, text: array<byte>, i: nat, ghost s: seq<byte>) returns (end: nat)
    requires Unread(text, s, 0) && i < |s| && StartsNumber(s[i..])
    modifies item`valuedouble, item`valueint, item`kind
    ensures var n := ParseNumber(s[i..]);
            i < end <= |s| && s[end..] == n.rest &&
            item.kind == KNumber && item.valuedouble == n.value && item.valueint == Truncate(n.value)
  {
    hide IntegerPart, FractionPart, ExponentPart, Pow10;
    var j, negative := i, false;
    Rest(s, i);
    if text[j] == MINUS {
      negative, j := true, j + 1;
    }
    assert s[j..] == DropIf(s[i..], MINUS);
    var n, scale, e;
    n, j := ReadInteger(text, j, s);
    n, scale, j := ReadFraction(text, j, n, s);
    e, j := ReadExponent(text, j, s);
    var signed: int := n;
    if negative { signed := 0 - signed; }
    var value := signed as real * Pow10(scale + e);
    item.valuedouble := value;
    item.valueint := Truncate(value);
    item.kind := KNumber;
    end := j;
  }

  // ----- strings

  /** One digit of parse_hex4. */
  method HexDigitAt(b: byte) returns (ok: bool, d: nat)
    ensures HexDigit(b) == if ok then Some(d) else None
  {
    ok, d := true, 0;
    if b >= 0x30 && b <= 0x39 {
      d := b - 0x30;
    } else if b >= 0x41 && b <= 0x46 {
      d := 10 + b - 0x41;
    } else if b >= 0x61 && b <= 0x66 {
      d := 10 + b - 0x61;
    } else {
      ok := false;
    }
  }

  /** parse_hex4: gives up with 0 at the first byte that is no digit. */
  method ParseHex4(text: array<byte>, at: nat, ghost s: seq<byte>) returns (h: nat)
    requires Unread(text, s, 0) && at + 4 <= |s|
    ensures h == HexValueAt(s, at)
  {
    var ok, v := HexDigitAt(text[at]);
    if !ok { return 0; }
    h := v * 16;
    ok, v := HexDigitAt(text[at + 1]);
    if !ok { return 0; }
    h := (h + v) * 16;
    ok, v := HexDigitAt(text[at + 2]);
    if !ok { return 0; }
    h := (h + v) * 16;
    ok, v := HexDigitAt(text[at + 3]);
    if !ok { return 0; }
    h := h + v;
  }

  /** The code point of the escape at `at` (behind its backslash), and where it ends. */
  method ReadUnits(text: array<byte>, at: nat, ghost s: seq<byte>) returns (u: nat, end: nat)
    requires Unread(text, s, 0) && 1 <= at < |s| && s[at - 1] == BACKSLASH && s[at] == LOWER_U
    requires DecodeTurn(s[at - 1..]).Turn?
    ensures u < 0x110000 && end <= |s| && end == at - 1 + DecodeTurn(s[at - 1..]).len
    ensures DecodeTurn(s[at - 1..]).out == if u == 0 then [] else Utf8(u)
  {
    ghost var t := s[at - 1..];
    assert forall k :: 0 <= k < |t| ==> t[k] == s[at - 1 + k];
    u := ParseHex4(text, at + 1, s);
    assert u == HexValueAt(t, 2);
    end := at + 5;
    if (u >= 0xDC00 && u <= 0xDFFF) || u == 0 {
      u := 0;
    } else if u >= 0xD800 && u <= 0xDBFF {
      if text[at + 5] != BACKSLASH || text[at + 6] != LOWER_U {
        u := 0;
      } else {
        assert t[6] == s[at + 5] && t[7] == s[at + 6];
        var uc2 := ParseHex4(text, at + 7, s);
        assert uc2 == HexValueAt(t, 8);
        end := at + 11;
        if uc2 < 0xDC00 || uc2 > 0xDFFF {
          u := 0;
        } else {
          u := Combine(u, uc2);
        }
      }
    }
  }

  /** A trailing byte of the fall-through switch: six bits, written before the bytes already there. */
  method WriteTail(out: array<byte>, at: nat, ptr0: nat, u: nat, ghost done: seq<byte>) returns (ptr: nat, uc: nat)
    requires at < ptr0 && ptr0 + |done| <= out.Length && out[ptr0..ptr0 + |done|] == done
    modifies out
    ensures ptr == ptr0 - 1 && uc == u / 64
    ensures out[ptr..ptr0 + |done|] == [0x80 + u % 64] + done && out[..at] == old(out[..at])
  {
    ptr := ptr0 - 1;
    out[ptr] := 0x80 + u % 64;
    uc := u / 64;
    assert out[ptr..ptr0 + |done|] == [out[ptr]] + out[ptr0..ptr0 + |done|];
  }

  /** The fall-through switch that writes a code point from its last byte to its first. */
  method WriteUtf8(out: array<byte>, at: nat, u: nat) returns (end: nat)
    requires 0 < u < 0x110000 && at + Utf8Length(u) <= out.Length
    modifies out
    ensures end == at + Utf8Length(u) && out[..end] == old(out[..at]) + Utf8(u)
  {
    hide Utf8;
    var len := 4;
    if u < 0x80 { len := 1; } else if u < 0x800 { len := 2; } else if u < 0x10000 { len := 3; }
    end := at + len;
    var uc, ptr := u, end;
    ghost var done: seq<byte> := [];
    if len >= 4 {
      ptr, uc := WriteTail(out, at, ptr, uc, done);
      done := [0x80 + u % 64];
    }
    if len >= 3 {
      done := [0x80 + uc % 64] + done;
      ptr, uc := WriteTail(out, at, ptr, uc, done[1..]);
    }
    if len >= 2 {
      done := [0x80 + uc % 64] + done;
      ptr, uc := WriteTail(out, at, ptr, uc, done[1..]);
    }
    WriteLead(out, at, u, uc, done);
  }

  /** `*--ptr2 = (uc | firstByteMark[len])` */
  method WriteLead(out: array<byte>, at: nat, u: nat, uc: nat, ghost done: seq<byte>)
    requires u < 0x110000 && |done| == Utf8Length(u) - 1
    requires at + 1 + |done| <= out.Length && out[at + 1..at + 1 + |done|] == done
    requires |done| == 0 ==> uc == u
    requires |done| == 1 ==> uc == u / 64 && done == [0x80 + u % 64]
    requires |done| == 2 ==> uc == u / 64 / 64 && done == [0x80 + u / 64 % 64, 0x80 + u % 64]
    requires |done| == 3 ==>
               uc == u / 64 / 64 / 64 && done == [0x80 + u / 64 / 64 % 64, 0x80 + u / 64 % 64, 0x80 + u % 64]
    modifies out
    ensures out[..at + 1 + |done|] == old(out[..at]) + Utf8(u)
  {
    var lead: byte := (if u < 0x80 then 0 else if u < 0x800 then 0xC0 else if u < 0x10000 then 0xE0 else 0xF0) + uc;
    assert [lead] + done == Utf8(u);
    out[at] := lead;
    hide Utf8;
    assert out[at + 1..at + 1 + |done|] == done;
    assert out[..at + 1 + |done|] == out[..at] + ([out[at]] + out[at + 1..at + 1 + |done|]);
  }

  /** One turn of the decoding loop of parse_string. */
  method DecodeInto(text: array<byte>, ptr: nat, ghost s: seq<byte>, out: array<byte>, ptr2: nat)
    returns (next: nat, next2: nat)
    requires Unread(text, s, 0) && ptr < |s| && s[ptr] != QUOTE && text != out
    requires var t := DecodeTurn(s[ptr..]); t.Turn? && ptr2 + |t.out| <= out.Length
    modifies out
    ensures var t := DecodeTurn(s[ptr..]);
            next == ptr + t.len && next2 == ptr2 + |t.out| && out[..next2] == old(out[..ptr2]) + t.out
  {
    hide Utf8, Combine;
    Rest(s, ptr);
    if text[ptr] != BACKSLASH {
      next2 := Store(out, ptr2, [text[ptr]]);
      next := ptr + 1;
    } else if text[ptr + 1] == LOWER_U {
      var u;
      u, next := ReadUnits(text, ptr + 1, s);
      next2 := ptr2;
      if u != 0 {
        next2 := WriteUtf8(out, ptr2, u);
      }
    } else {
      var c: byte;
      match text[ptr + 1] {
        case 0x62 => c := 0x08;
        case 0x66 => c := 0x0C;
        case 0x6E => c := 0x0A;
        case 0x72 => c := 0x0D;
        case 0x74 => c := 0x09;
        case _ => c := text[ptr + 1];
      }
      next2 := Store(out, ptr2, [c]);
      next := ptr + 2;
    }
  }

  /** The counting loop of parse_string. */
  method CountLiteral(text: array<byte>, i: nat, ghost s: seq<byte>) returns (len: nat)
    requires Unread(text, s, 0) && i <= |s| && CountBody(s[i..]).Counted?
    ensures len == CountBody(s[i..]).len
  {
    len := 0;
    var ptr := i;
    while text[ptr] != QUOTE && text[ptr] != 0
      invariant i <= ptr <= |s| && CountBody(s[i..]) == More(len, CountBody(s[ptr..]))
      decreases |s| - ptr
    {
      CountStep(s, ptr);
      len := len + 1;
      ptr := if text[ptr] == BACKSLASH then ptr + 2 else ptr + 1;
    }
    Rest(s, ptr);
  }

  lemma CountStep(s: seq<byte>, i: nat)
    requires i < |s| && s[i] != QUOTE && CountBody(s[i..]).Counted?
    ensures if s[i] == BACKSLASH then i + 2 <= |s| && CountBody(s[i..]) == More(1, CountBody(s[i + 2..]))
            else CountBody(s[i..]) == More(1, CountBody(s[i + 1..]))
  {
    Rest(s, i);
    if s[i] == BACKSLASH && i + 1 < |s| { assert s[i..][2..] == s[i + 2..]; }
  }

  /** The decoding loop has read up to `ptr` and written the first `ptr2` bytes of `all`. */
  ghost predicate Decoding(s: seq<byte>, d: Decoded, ptr: nat, ptr2: nat) {
    d.Decoded? && ptr <= |s| && ptr2 <= |d.text| && DecodeBody(s[ptr..]) == Decoded(d.text[ptr2..], d.rest)
  }

  lemma DecodingStep(s: seq<byte>, d: Decoded, ptr: nat, ptr2: nat)
    requires Decoding(s, d, ptr, ptr2) && ptr < |s| && s[ptr] != QUOTE
    ensures var t := DecodeTurn(s[ptr..]);
            t.Turn? && Decoding(s, d, ptr + t.len, ptr2 + |t.out|) && d.text[..ptr2] + t.out == d.text[..ptr2 + |t.out|]
  {
    hide DecodeTurn;
    var t := DecodeTurn(s[ptr..]);
    var todo := d.text[ptr2..];
    assert s[ptr..][t.len..] == s[ptr + t.len..];
    assert todo[..|t.out|] == t.out && todo[|t.out|..] == d.text[ptr2 + |t.out|..];
    assert d.text[..ptr2 + |t.out|] == d.text[..ptr2] + todo[..|t.out|];
  }

  lemma DecodingEnd(s: seq<byte>, d: Decoded, ptr: nat, ptr2: nat)
    requires Decoding(s, d, ptr, ptr2) && (ptr == |s| || s[ptr] == QUOTE)
    ensures ptr2 == |d.text| && s[if ptr < |s| then ptr + 1 else ptr..] == d.rest
  {
    Rest(s, ptr);
  }

  /** The decoding loop of parse_string. */
  method DecodePass(text: array<byte>, i: nat, ghost s: seq<byte>, out: array<byte>, ghost d: Decoded)
    returns (ptr: nat, ptr2: nat)
    requires Unread(text, s, 0) && text != out && Decoding(s, d, i, 0) && |d.text| <= out.Length
    modifies out
    ensures i <= ptr <= |s| && (ptr == |s| || s[ptr] == QUOTE)
    ensures Decoding(s, d, ptr, ptr2) && out[..ptr2] == d.text[..ptr2]
  {
    hide DecodeTurn, DecodeBody, Decoding;
    ptr, ptr2 := i, 0;
    DecodingBound(s, d, i, 0);
    while text[ptr] != QUOTE && text[ptr] != 0
      invariant i <= ptr <= |s| && d.Decoded? && 0 <= ptr2 <= |d.text| && Decoding(s, d, ptr, ptr2)
      invariant out[..ptr2] == d.text[..ptr2]
      decreases |s| - ptr
    {
      DecodingStep(s, d, ptr, ptr2);
      DecodingBound(s, d, ptr + DecodeTurn(s[ptr..]).len, ptr2 + |DecodeTurn(s[ptr..]).out|);
      ptr, ptr2 := DecodeInto(text, ptr, s, out, ptr2);
    }
  }

  lemma DecodingBound(s: seq<byte>, d: Decoded, ptr: nat, ptr2: nat)
    requires Decoding(s, d, ptr, ptr2)
    ensures ptr <= |s| && d.Decoded? && ptr2 <= |d.text|
  {
  }

  /** parse_string: both passes over the literal at `i`. */
  method ParseStringItem(item: Node, text: array<byte>, i: nat, ghost s: seq<byte>, mem: Memory) returns (end: nat)
    requires Unread(text, s, 0) && i < |s| && s[i] == QUOTE && DecodeBody(s[i + 1..]).Decoded?
    requires TextBlock(item) !in mem.live
    modifies item`valuestring, item`kind, mem
    ensures mem.live == old(mem.live) + {TextBlock(item)}
    ensures var d := DecodeBody(s[i + 1..]);
            i < end <= |s| && s[end..] == d.rest && item.kind == KString && item.valuestring == Some(d.text)
  {
    hide DecodeBody, CountBody;
    ghost var d := DecodeBody(s[i + 1..]);
    PassesAgree(s[i + 1..]);
    DecodedNulFree(s[i + 1..]);
    var len := CountLiteral(text, i + 1, s);
    var out := new byte[len + 1];
    mem.Alloc(TextBlock(item));
    var ptr, ptr2 := DecodePass(text, i + 1, s, out, d);
    DecodingEnd(s, d, ptr, ptr2);
    assert d.text[..ptr2] == d.text;
    out[ptr2] := 0;
    end := if text[ptr] == QUOTE then ptr + 1 else ptr;
    item.valuestring := Some(out[..ptr2]);
    item.kind := KString;
  }
}
