/** JSON numbers: what parse_number reads and what print_number writes for C ints. */
module Numbers {
  import opened Bytes
  import opened Json

  /** A run of digits: its value appended to `acc`, its length, and the text behind it. */
  datatype Run = Run(acc: nat, count: nat, rest: seq<byte>)

  function Digits(s: seq<byte>, acc: nat): (r: Run)
    ensures |r.rest| == |s| - r.count
  {
    if s == [] || !IsDigit(s[0]) then Run(acc, 0, s)
    else
      var r := Digits(s[1..], acc * 10 + (s[0] - 0x30));
      r.(count := r.count + 1)
  }

  predicate Starts(s: seq<byte>, b: byte) { s != [] && s[0] == b }

  function DropIf(s: seq<byte>, b: byte): (r: seq<byte>)
    ensures |r| <= |s|
  {
    if Starts(s, b) then s[1..] else s
  }

  /** Integer part: a leading zero is skipped, further digits are still read. */
  function IntegerPart(s: seq<byte>): (r: Run)
    ensures |r.rest| <= |s|
  {
    var s := DropIf(s, 0x30);
    if s != [] && 0x31 <= s[0] <= 0x39 then Digits(s, 0) else Run(0, 0, s)
  }

  /** Fraction digits extend the mantissa; a dot without a digit behind it is not read. */
  function FractionPart(s: seq<byte>, acc: nat): (r: Run)
    ensures |r.rest| <= |s|
  {
    if Starts(s, DOT) && |s| > 1 && IsDigit(s[1]) then Digits(s[1..], acc) else Run(acc, 0, s)
  }

  datatype Exponent = Exponent(value: int, rest: seq<byte>)

  /** The exponent letter needs no digits behind it. */
  function ExponentPart(s: seq<byte>): (e: Exponent)
    ensures |e.rest| <= |s|
  {
    if Starts(s, 0x65) || Starts(s, 0x45) then
      var t := s[1..];
      var r := Digits(if Starts(t, PLUS) || Starts(t, MINUS) then t[1..] else t, 0);
      Exponent(if Starts(t, MINUS) then 0 - r.acc else r.acc, r.rest)
    else Exponent(0, s)
  }

  function Pow10(e: int): real
    decreases if e < 0 then -e else e
  {
    if e == 0 then 1.0 else if e > 0 then 10.0 * Pow10(e - 1) else Pow10(e + 1) / 10.0
  }

  datatype Numeral = Numeral(value: real, rest: seq<byte>)

  predicate StartsNumber(s: seq<byte>) {
    s != [] && (s[0] == MINUS || IsDigit(s[0]))
  }

  /** parse_number over exact arithmetic. */
  function ParseNumber(s: seq<byte>): (n: Numeral)
    ensures |n.rest| <= |s|
    ensures StartsNumber(s) ==> |n.rest| < |s|
  {
    var i := IntegerPart(DropIf(s, MINUS));
    var f := FractionPart(i.rest, i.acc);
    var e := ExponentPart(f.rest);
    var mantissa := if Starts(s, MINUS) then 0 - f.acc else f.acc;
    Numeral(mantissa as real * Pow10(e.value - f.count), e.rest)
  }

  /** The bytes parse_number looks at; anything else ends a number. */
  predicate NumberByte(b: byte) {
    IsDigit(b) || b == DOT || b == 0x65 || b == 0x45 || b == PLUS || b == MINUS
  }

  predicate Ends(k: seq<byte>) { k == [] || !NumberByte(k[0]) }

  lemma {:induction false} DigitsLocal(s: seq<byte>, acc: nat, k: seq<byte>)
    requires Ends(k)
    ensures var r := Digits(s, acc); Digits(s + k, acc) == Run(r.acc, r.count, r.rest + k)
  {
    if s == [] {
      assert s + k == k;
    } else if IsDigit(s[0]) {
      assert (s + k)[1..] == s[1..] + k;
      DigitsLocal(s[1..], acc * 10 + (s[0] - 0x30), k);
    } else {
      assert Digits(s, acc) == Run(acc, 0, s);
    }
  }

  lemma DropLocal(s: seq<byte>, b: byte, k: seq<byte>)
    requires Ends(k) && NumberByte(b)
    ensures DropIf(s + k, b) == DropIf(s, b) + k
    ensures Starts(s + k, b) == Starts(s, b)
  {
    if s == [] { assert s + k == k; }
  }

  lemma IntegerLocal(s: seq<byte>, k: seq<byte>)
    requires Ends(k)
    ensures var r := IntegerPart(s); IntegerPart(s + k) == Run(r.acc, r.count, r.rest + k)
  {
    DropLocal(s, 0x30, k);
    var t := DropIf(s, 0x30);
    if t == [] { assert t + k == k; }
    DigitsLocal(t, 0, k);
  }

  lemma FractionLocal(s: seq<byte>, acc: nat, k: seq<byte>)
    requires Ends(k)
    ensures var r := FractionPart(s, acc); FractionPart(s + k, acc) == Run(r.acc, r.count, r.rest + k)
  {
    DropLocal(s, DOT, k);
    if Starts(s, DOT) {
      assert (s + k)[1..] == s[1..] + k;
      DigitsLocal(s[1..], acc, k);
    }
  }

  lemma ExponentLocal(s: seq<byte>, k: seq<byte>)
    requires Ends(k)
    ensures var e := ExponentPart(s); ExponentPart(s + k) == Exponent(e.value, e.rest + k)
  {
    DropLocal(s, 0x65, k);
    DropLocal(s, 0x45, k);
    if s != [] {
      var t := s[1..];
      assert (s + k)[1..] == t + k;
      DropLocal(t, PLUS, k);
      DropLocal(t, MINUS, k);
      var d := if Starts(t, PLUS) || Starts(t, MINUS) then t[1..] else t;
      DigitsLocal(d, 0, k);
    }
  }

  /** What parse_number reads does not depend on text behind a byte that ends the number. */
  lemma NumberLocal(s: seq<byte>, k: seq<byte>)
    requires Ends(k)
    ensures ParseNumber(s + k) == Numeral(ParseNumber(s).value, ParseNumber(s).rest + k)
  {
    hide IntegerPart, FractionPart, ExponentPart, DropIf, Pow10;
    DropLocal(s, MINUS, k);
    var s1 := DropIf(s, MINUS);
    IntegerLocal(s1, k);
    var i := IntegerPart(s1);
    FractionLocal(i.rest, i.acc, k);
    var f := FractionPart(i.rest, i.acc);
    ExponentLocal(f.rest, k);
  }

  // ----- printing

  function Decimal(n: nat): (s: seq<byte>)
    ensures s != [] && forall i :: 0 <= i < |s| ==> IsDigit(s[i])
    ensures n > 0 ==> s[0] != 0x30
  {
    if n < 10 then [0x30 + n] else Decimal(n / 10) + [0x30 + n % 10]
  }

  /** print_number for a number equal to a C int. */
  function PrintInt(i: int): (s: seq<byte>)
    ensures StartsNumber(s) && NulFree(s)
    ensures forall j :: 0 <= j < |s| ==> NumberByte(s[j])
  {
    if i < 0 then [MINUS] + Decimal(-i) else Decimal(i)
  }

  lemma {:induction false} DecimalLength(n: nat, k: nat)
    requires k >= 1 && n < PowerOfTen(k)
    ensures |Decimal(n)| <= k
  {
    if n >= 10 {
      assert PowerOfTen(1) == 10;
      DecimalLength(n / 10, k - 1);
    }
  }

  function PowerOfTen(k: nat): nat {
    if k == 0 then 1 else 10 * PowerOfTen(k - 1)
  }

  /** A printed C int fits the 21 bytes print_number reserves. */
  lemma IntLength(i: int)
    requires INT_MIN <= i <= INT_MAX
    ensures |PrintInt(i)| <= 11
  {
    assert PowerOfTen(10) == 10_000_000_000;
    DecimalLength(if i < 0 then -i else i, 10);
  }

  lemma OneDigit(b: byte, k: seq<byte>, acc: nat)
    requires IsDigit(b)
    ensures var r := Digits(k, acc * 10 + (b - 0x30)); Digits([b] + k, acc) == Run(r.acc, r.count + 1, r.rest)
  {
    assert ([b] + k)[1..] == k;
  }

  lemma ShiftDigits(acc: nat, p: nat, n: nat)
    ensures (acc * p + n / 10) * 10 + n % 10 == acc * (10 * p) + n
  {
  }

  /** Reading the digits of `n` in front of `k` continues the accumulator by `n`. */
  lemma {:induction false} DigitsOfDecimal(n: nat, k: seq<byte>, acc: nat)
    ensures var r := Digits(k, acc * PowerOfTen(|Decimal(n)|) + n);
            Digits(Decimal(n) + k, acc) == Run(r.acc, r.count + |Decimal(n)|, r.rest)
  {
    hide Digits;
    if n < 10 {
      OneDigit(0x30 + n, k, acc);
      assert PowerOfTen(1) == 10;
    } else {
      var last: byte := 0x30 + n % 10;
      var p := PowerOfTen(|Decimal(n / 10)|);
      assert Decimal(n) + k == Decimal(n / 10) + ([last] + k);
      DigitsOfDecimal(n / 10, [last] + k, acc);
      OneDigit(last, k, acc * p + n / 10);
      ShiftDigits(acc, p, n);
    }
  }

  lemma NaturalRoundTrip(n: nat)
    ensures var i := IntegerPart(Decimal(n)); i.acc == n && i.rest == []
  {
    var d := Decimal(n);
    if n == 0 {
      assert DropIf(d, 0x30) == [];
    } else {
      assert d + [] == d && DropIf(d, 0x30) == d;
      DigitsOfDecimal(n, [], 0);
      assert Digits(d, 0) == Run(n, |d|, []);
    }
  }

  /** Parsing a printed int gives it back, whatever ends the number. */
  lemma NumberRoundTrip(i: int, k: seq<byte>)
    requires Ends(k)
    ensures ParseNumber(PrintInt(i) + k) == Numeral(i as real, k)
  {
    var s := PrintInt(i);
    var n := if i < 0 then -i else i;
    assert DropIf(s, MINUS) == Decimal(n);
    NaturalRoundTrip(n);
    assert ParseNumber(s) == Numeral(i as real, []);
    NumberLocal(s, k);
    assert [] + k == k;
  }
}
