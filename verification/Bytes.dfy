/** Bytes of a C text, and the few character classes the JSON code tests for. */
module Bytes {

  type byte = b: int | 0 <= b < 256

  /** __u32 */
  type u32 = x: int | 0 <= x < 0x1_0000_0000

  /** Addition as a __u32 does it. */
  function Plus32(a: u32, b: u32): u32 {
    var sum: int := a + b;
    sum % 0x1_0000_0000
  }

  datatype Option<+T> = None | Some(value: T)

  const TAB: byte := 0x09
  const LF: byte := 0x0A
  const CR: byte := 0x0D
  const SPACE: byte := 0x20
  const QUOTE: byte := 0x22
  const STAR: byte := 0x2A
  const PLUS: byte := 0x2B
  const COMMA: byte := 0x2C
  const MINUS: byte := 0x2D
  const DOT: byte := 0x2E
  const SLASH: byte := 0x2F
  const COLON: byte := 0x3A
  const LBRACKET: byte := 0x5B
  const BACKSLASH: byte := 0x5C
  const RBRACKET: byte := 0x5D
  const LOWER_U: byte := 0x75
  const LBRACE: byte := 0x7B
  const RBRACE: byte := 0x7D

  const NULL_TEXT: seq<byte> := [0x6E, 0x75, 0x6C, 0x6C]
  const FALSE_TEXT: seq<byte> := [0x66, 0x61, 0x6C, 0x73, 0x65]
  const TRUE_TEXT: seq<byte> := [0x74, 0x72, 0x75, 0x65]

  predicate IsDigit(b: byte) {
    0x30 <= b <= 0x39
  }

  /** A C string holds no terminator inside. */
  ghost predicate NulFree(s: seq<byte>) {
    forall i :: 0 <= i < |s| ==> s[i] != 0
  }

  type CString = s: seq<byte> | NulFree(s)

  /** `n` copies of one byte. */
  function Repeat(b: byte, n: nat): (s: seq<byte>)
    ensures |s| == n
    ensures forall i :: 0 <= i < n ==> s[i] == b
  {
    seq(n, _ => b)
  }

  /** The array holds the C string `s` from index `at` on, terminator included. */
  ghost predicate HoldsAt(a: array<byte>, at: nat, s: seq<byte>)
    reads a
  {
    at + |s| < a.Length && a[at..at + |s|] == s && a[at + |s|] == 0 && NulFree(s)
  }

  /** The array holds the C string `text` from index `r` on: what is left to read of it. */
  ghost predicate Unread(a: array<byte>, text: seq<byte>, r: nat)
    reads a
  {
    r <= |text| < a.Length && NulFree(text) &&
    (forall i :: r <= i < |text| ==> a[i] == text[i]) && a[|text|] == 0
  }
}
