/** pow2gt: bit smearing finds the least power of two that is not below its argument. */
module Growth {

  function Pow2(k: nat): (p: nat)
    ensures p >= 1
  {
    if k == 0 then 1 else 2 * Pow2(k - 1)
  }

  ghost predicate IsPow2(n: int) { exists k: nat :: n == Pow2(k) }

  /** Bitwise or of two naturals. */
  function Or(a: nat, b: nat): nat {
    if a == 0 && b == 0 then 0
    else 2 * Or(a / 2, b / 2) + (if a % 2 == 1 || b % 2 == 1 then 1 else 0)
  }

  /** Right shift. */
  function Shr(x: nat, k: nat): nat { if k == 0 then x else Shr(x / 2, k - 1) }

  /** Number of binary digits. */
  function Bits(x: nat): nat { if x == 0 then 0 else 1 + Bits(x / 2) }

  /** The leading `m` binary digits of x are ones (all of them, if there are fewer). */
  predicate LeadingOnes(x: nat, m: nat)
    requires m >= 1
  {
    if Bits(x) <= m then x == Pow2(Bits(x)) - 1 else LeadingOnes(x / 2, m)
  }

  lemma {:induction false} BitsBound(x: nat)
    ensures x < Pow2(Bits(x)) && (x > 0 ==> Bits(x) > 0 && Pow2(Bits(x) - 1) <= x)
    ensures Bits(0) == 0 && (x > 0 ==> Pow2(Bits(x)) <= 2 * x)
  {
    if x > 0 { BitsBound(x / 2); }
  }

  lemma {:induction false} Pow2Monotone(a: nat, b: nat)
    requires a <= b
    ensures Pow2(a) <= Pow2(b) && (a < b ==> 2 * Pow2(a) <= Pow2(b))
  {
    if a < b { Pow2Monotone(a, b - 1); }
  }

  lemma {:induction false} ShrHalf(x: nat, k: nat)
    ensures Shr(x, k) / 2 == Shr(x / 2, k)
  {
    if k > 0 { ShrHalf(x / 2, k - 1); }
  }

  lemma {:induction false} ShrAll(x: nat, k: nat)
    requires Bits(x) <= k
    ensures Shr(x, k) == 0
  {
    if k > 0 { ShrAll(x / 2, k - 1); }
  }

  lemma {:induction false} OrZero(x: nat)
    ensures Or(x, 0) == x
  {
    if x > 0 { OrZero(x / 2); }
  }

  /** Among the leading ones every digit is a one. */
  lemma {:induction false} DigitSet(x: nat, m: nat, d: nat)
    requires m >= 1 && LeadingOnes(x, m)
    requires d < Bits(x) <= d + m
    ensures Shr(x, d) % 2 == 1
  {
    if d > 0 { DigitSet(x / 2, m, d - 1); }
  }

  /** One smearing step doubles the run of leading ones and keeps the length. */
  lemma {:induction false} Smear(x: nat, m: nat)
    requires m >= 1 && LeadingOnes(x, m)
    ensures var z := Or(x, Shr(x, m)); LeadingOnes(z, 2 * m) && Bits(z) == Bits(x)
  {
    if Bits(x) <= m {
      ShrAll(x, m);
      OrZero(x);
    } else {
      Smear(x / 2, m);
      ShrHalf(x, m);
      if Bits(x) <= 2 * m { DigitSet(x, m, m); }
      OrHalf(x, Shr(x, m));
      var z := Or(x, Shr(x, m));
      hide Or, Shr, LeadingOnes, Pow2;
      assert Bits(z / 2) == Bits(x / 2) > 0;
      assert Bits(z) == 1 + Bits(z / 2);
      LeadingStep(z, 2 * m);
    }
  }

  lemma OrHalf(x: nat, y: nat)
    ensures Or(x, y) / 2 == Or(x / 2, y / 2) && (y % 2 == 1 ==> Or(x, y) % 2 == 1)
  {
  }

  /** A digit appended below leading ones. */
  lemma LeadingStep(z: nat, n: nat)
    requires z > 0 && n >= 1 && LeadingOnes(z / 2, n)
    requires Bits(z) <= n ==> z % 2 == 1
    ensures LeadingOnes(z, n)
  {
    if Bits(z) <= n {
      var h := z / 2;
      assert Bits(z) == 1 + Bits(h);
      assert h == Pow2(Bits(h)) - 1;
    }
  }

  lemma {:induction false} OneLeadingOne(x: nat)
    ensures LeadingOnes(x, 1)
  {
    if Bits(x) > 1 { OneLeadingOne(x / 2); } else { BitsBound(x); }
  }

  /** The least power of two that is at least x. */
  ghost predicate LeastPow2(x: int, p: int) {
    IsPow2(p) && x <= p && forall k: nat :: x <= Pow2(k) ==> p <= Pow2(k)
  }

  lemma BitsOfPredecessor(x: nat)
    requires x >= 1
    ensures var n := Bits(x - 1); x <= Pow2(n) < 2 * x && (n > 0 ==> Pow2(n - 1) < x)
  {
    hide Bits;
    BitsBound(x - 1);
  }

  lemma LeastFromBits(x: nat)
    requires x >= 1
    ensures LeastPow2(x, Pow2(Bits(x - 1))) && Pow2(Bits(x - 1)) < 2 * x
  {
    hide Pow2, Bits;
    BitsOfPredecessor(x);
    var n := Bits(x - 1);
    forall k: nat | x <= Pow2(k) ensures Pow2(n) <= Pow2(k) { LeastExponent(x, n, k); }
  }

  lemma LeastExponent(x: nat, n: nat, k: nat)
    requires n > 0 ==> Pow2(n - 1) < x
    requires x <= Pow2(k)
    ensures Pow2(n) <= Pow2(k)
  {
    hide Pow2;
    if k < n {
      Pow2Monotone(k, n - 1);
    } else {
      Pow2Monotone(n, k);
    }
  }

  lemma BitsOf2p30(x: nat)
    requires x < 0x4000_0000
    ensures Bits(x) <= 30
  {
    BitsBound(x);
    assert Pow2(10) == 1024;
    assert Pow2(20) == 1024 * 1024;
    assert Pow2(30) == 0x4000_0000;
    hide Pow2;
    if Bits(x) > 30 { Pow2Monotone(30, Bits(x) - 1); }
  }

  lemma AllOnes(x: nat, m: nat)
    requires Bits(x) <= m && m >= 1 && LeadingOnes(x, m)
    ensures x == Pow2(Bits(x)) - 1
  {
  }

  /** pow2gt for a C int up to 2^30. */
  method Pow2gt(x0: int) returns (r: int)
    requires 1 <= x0 <= 0x4000_0000
    ensures LeastPow2(x0, r) && r < 2 * x0
  {
    hide Pow2, Or, Shr, Bits, LeadingOnes, LeastPow2;
    var x: nat := x0 - 1;
    BitsOf2p30(x);
    LeastFromBits(x0);
    OneLeadingOne(x);
    Smear(x, 1);
    x := Or(x, Shr(x, 1));
    Smear(x, 2);
    x := Or(x, Shr(x, 2));
    Smear(x, 4);
    x := Or(x, Shr(x, 4));
    Smear(x, 8);
    x := Or(x, Shr(x, 8));
    Smear(x, 16);
    x := Or(x, Shr(x, 16));
    AllOnes(x, 32);
    r := x + 1;
  }
}
