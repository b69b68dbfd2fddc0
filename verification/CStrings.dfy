/** The C string routines and the literal composing that both printers share. */
module CStrings {
  import opened Bytes
  import opened StringLiteral

  /** strlen from index `at`. */
  method Strlen(a: array<byte>, at: nat, ghost s: seq<byte>) returns (n: nat)
    requires HoldsAt(a, at, s)
    ensures n == |s|
  {
    n := 0;
    ghost var t := a[at..at + |s|];
    while a[at + n] != 0
      invariant n <= |s| && (n < |s| ==> a[at + n] == t[n])
      decreases |s| - n
    {
      n := n + 1;
    }
  }

  /** memcpy of known bytes to index `at`. */
  method Store(out: array<byte>, at: nat, s: seq<byte>) returns (end: nat)
    requires at + |s| <= out.Length
    modifies out
    ensures end == at + |s| && out[..end] == old(out[..at]) + s
  {
    forall i | 0 <= i < |s| { out[at + i] := s[i]; }
    end := at + |s|;
  }

  /** Bytes and a terminator that later writes may overwrite. */
  method StoreText(out: array<byte>, at: nat, s: seq<byte>) returns (end: nat)
    requires at + |s| < out.Length
    modifies out
    ensures end == at + |s| && out[..end] == old(out[..at]) + s && out[end] == 0
  {
    end := Store(out, at, s);
    out[end] := 0;
  }

  /** strcpy of a string of known length `n` */
  method Strcpy(out: array<byte>, at: nat, source: array<byte>, n: nat) returns (end: nat)
    requires n <= source.Length && at + n < out.Length && source != out
    modifies out
    ensures end == at + n && out[..end] == old(out[..at]) + source[..n] && out[end] == 0
  {
    end := Memcpy(out, at, source, n);
    out[end] := 0;
  }

  /** memcpy between arrays, `n` bytes from the start of `source`. */
  method Memcpy(out: array<byte>, at: nat, source: array<byte>, n: nat) returns (end: nat)
    requires n <= source.Length && at + n <= out.Length && source != out
    modifies out
    ensures end == at + n && out[..end] == old(out[..at]) + source[..n]
  {
    forall i | 0 <= i < n { out[at + i] := source[i]; }
    end := at + n;
  }

  /** The counting loop of print_string_ptr: the size of the escaped string. */
  method LiteralSize(str: CString) returns (len: nat)
    ensures len == |EscapeBody(str)|
  {
    len := 0;
    var i := 0;
    while i < |str|
      invariant 0 <= i <= |str| && len + |EscapeBody(str[i..])| == |EscapeBody(str)|
    {
      assert str[i..][1..] == str[i + 1..];
      var token := str[i];
      len := len + 1;
      if token in [QUOTE, BACKSLASH, 0x08, 0x0C, 0x0A, 0x0D, 0x09] {
        len := len + 1;
      } else if token < 32 {
        len := len + 5;
      }
      i := i + 1;
    }
  }

  /** The flag loop of print_string_ptr: does any byte need escaping? */
  method NeedsEscaping(str: CString) returns (flag: bool)
    ensures !flag ==> EscapeBody(str) == str
    ensures flag <==> exists i :: 0 <= i < |str| && NeedsEscape(str[i])
  {
    flag := false;
    var i := 0;
    while i < |str|
      invariant 0 <= i <= |str|
      invariant flag <==> exists j :: 0 <= j < i && NeedsEscape(str[j])
    {
      if (str[i] > 0 && str[i] < 32) || str[i] == QUOTE || str[i] == BACKSLASH { flag := true; }
      i := i + 1;
    }
    if !flag { PlainUnchanged(str); }
  }

  /** One byte of the composing loop. */
  method EscapeInto(out: array<byte>, at: nat, token: byte) returns (end: nat)
    requires at + |EscapeByte(token)| < out.Length
    modifies out
    ensures end == at + |EscapeByte(token)| && out[..end] == old(out[..at]) + EscapeByte(token)
  {
    if token > 31 && token != QUOTE && token != BACKSLASH {
      end := Store(out, at, [token]);
    } else {
      var e := Store(out, at, [BACKSLASH]);
      match token
      case 0x5C => end := Store(out, e, [BACKSLASH]);
      case 0x22 => end := Store(out, e, [QUOTE]);
      case 0x08 => end := Store(out, e, [0x62]);
      case 0x0C => end := Store(out, e, [0x66]);
      case 0x0A => end := Store(out, e, [0x6E]);
      case 0x0D => end := Store(out, e, [0x72]);
      case 0x09 => end := Store(out, e, [0x74]);
      case _ => end := StoreText(out, e, [LOWER_U, 0x30, 0x30, HexLower(token / 16), HexLower(token % 16)]);
    }
  }

  /** The composing loop of print_string_ptr, from behind the opening quote. */
  method EscapeAll(out: array<byte>, at: nat, str: CString) returns (end: nat)
    requires at + |EscapeBody(str)| < out.Length
    modifies out
    ensures end == at + |EscapeBody(str)| && out[..end] == old(out[..at]) + EscapeBody(str)
  {
    end := at;
    var i := 0;
    assert str[0..] == str;
    while i < |str|
      invariant 0 <= i <= |str| && at <= end && end + |EscapeBody(str[i..])| == at + |EscapeBody(str)|
      invariant out[..end] + EscapeBody(str[i..]) == old(out[..at]) + EscapeBody(str)
    {
      assert str[i..][1..] == str[i + 1..];
      ghost var e, r := EscapeByte(str[i]), EscapeBody(str[i + 1..]);
      ghost var before := out[..end];
      end := EscapeInto(out, end, str[i]);
      assert (before + e) + r == before + (e + r);
      i := i + 1;
    }
  }

  /** A whole literal at index `at`, terminator included; the room needed is exactly used up. */
  method LiteralInto(out: array<byte>, at: nat, str: CString, flag: bool)
    requires at + |Quoted(str)| < out.Length
    requires !flag ==> EscapeBody(str) == str
    modifies out
    ensures out[..at + |Quoted(str)|] == old(out[..at]) + Quoted(str) && out[at + |Quoted(str)|] == 0
  {
    var e := Store(out, at, [QUOTE]);
    if !flag {
      e := StoreText(out, e, str);
    } else {
      e := EscapeAll(out, e, str);
    }
    e := Store(out, e, [QUOTE]);
    out[e] := 0;
    assert old(out[..at]) + [QUOTE] + EscapeBody(str) + [QUOTE] == old(out[..at]) + Quoted(str);
  }
}
