/** Integers as decimal text. */
module Decimal {
  import opened Prelude

  predicate IsDigit(c: CodePoint) { 48 <= c <= 57 }

  predicate AllDigits(t: Text) {
    forall i | 0 <= i < |t| :: IsDigit(t[i])
  }

  function OfNat(n: nat): (t: Text)
    ensures t != [] && AllDigits(t)
    ensures t[0] == 48 ==> n == 0 && |t| == 1
    ensures n > 0 ==> t[0] != 48
  {
    if n < 10 then [48 + n] else OfNat(n / 10) + [48 + n % 10]
  }

  function OfInt(n: int): (t: Text)
    ensures t != []
  {
    if n < 0 then [45] + OfNat(-n) else OfNat(n)
  }

  function NatValue(t: Text): (n: nat)
    requires AllDigits(t)
  {
    if t == [] then 0
    else var d: int := t[|t| - 1]; NatValue(t[..|t| - 1]) * 10 + (d - 48)
  }

  /** The integer written by t, when t is an optional minus sign and digits. */
  function ToInt(t: Text): (n: Option<int>) {
    if t != [] && t[0] == 45 && t[1..] != [] && AllDigits(t[1..]) then Some(0 - NatValue(t[1..]) as int)
    else if t != [] && AllDigits(t) then Some(NatValue(t))
    else None
  }

  lemma {:induction false} NatRoundTrip(n: nat)
    ensures NatValue(OfNat(n)) == n
  {
    if n >= 10 {
      NatRoundTrip(n / 10);
      var t := OfNat(n / 10) + [48 + n % 10];
      assert t[..|t| - 1] == OfNat(n / 10);
    }
  }

  lemma {:induction false} RoundTrip(n: int)
    ensures ToInt(OfInt(n)) == Some(n)
  {
    NatRoundTrip(if n < 0 then -n else n);
    if n < 0 {
      assert OfInt(n)[1..] == OfNat(-n);
    }
  }

  function Pow10(n: nat): (p: nat)
    ensures p >= 1
  {
    if n == 0 then 1 else 10 * Pow10(n - 1)
  }

  lemma {:induction false} DivideTwice(n: nat, p: nat)
    requires p >= 1
    ensures n / 10 / p == n / (10 * p)
  {
    var q, r := n / 10 / p, n / 10 % p;
    assert n == 10 * (p * q + r) + n % 10;
    assert 10 * (p * q) == 10 * p * q;
    Quotient(n, 10 * p, q, 10 * r + n % 10);
  }

  lemma {:induction false} Multiple(d: nat, k: int)
    ensures k >= 1 ==> d * k >= d
    ensures k <= -1 ==> d * k + d <= 0
  {
    if k >= 1 {
      assert d * k == d + d * (k - 1);
    } else if k <= -1 {
      assert d * k == d * (k + 1) - d;
    }
  }

  lemma {:induction false} Quotient(n: nat, d: nat, q: nat, r: nat)
    requires d >= 1 && n == d * q + r && r < d
    ensures n / d == q
  {
    var k := q - n / d;
    assert d * k == n % d - r by {
      assert d * q == d * (n / d) + d * k;
    }
    Multiple(d, k);
  }

  /** The digit with i digits after it is that of the i-th power of ten. */
  lemma {:induction false} DigitIs(n: nat, i: nat)
    requires i < |OfNat(n)|
    ensures OfNat(n)[|OfNat(n)| - 1 - i] == 48 + n / Pow10(i) % 10
  {
    if i > 0 {
      DigitIs(n / 10, i - 1);
      DivideTwice(n, Pow10(i - 1));
    }
  }
}
