/** Lower-case hexadecimal, as written by Buffer.toString('hex') and read by Buffer.from(s, 'hex'). */
module Hex {
  import opened Prelude

  function Digit(n: int): (c: CodePoint)
    requires 0 <= n < 16
  {
    if n < 10 then 48 + n else 87 + n
  }

  /** The value of a hex digit of either case; 16 for any other character. */
  function Value(c: CodePoint): (n: int)
    ensures 0 <= n <= 16
  {
    if 48 <= c <= 57 then c - 48
    else if 97 <= c <= 102 then c - 87
    else if 65 <= c <= 70 then c - 55
    else 16
  }

  predicate IsLowerHex(t: Text) {
    forall i | 0 <= i < |t| :: 48 <= t[i] <= 57 || 97 <= t[i] <= 102
  }

  function Encode(b: Bytes): (t: Text)
    ensures |t| == 2 * |b| && IsLowerHex(t)
  {
    if b == [] then [] else [Digit(b[0] / 16), Digit(b[0] % 16)] + Encode(b[1..])
  }

  /** Node's decoder: stops at the first pair that is not two hex digits and drops a trailing odd digit. */
  function Decode(t: Text): (b: Bytes)
    ensures 2 * |b| <= |t|
  {
    if |t| < 2 || Value(t[0]) == 16 || Value(t[1]) == 16 then []
    else [Value(t[0]) * 16 + Value(t[1])] + Decode(t[2..])
  }

  lemma {:induction false} PairReads(n: Byte, rest: Text)
    ensures Decode([Digit(n / 16), Digit(n % 16)] + rest) == [n] + Decode(rest)
  {
    var t := [Digit(n / 16), Digit(n % 16)] + rest;
    assert t[2..] == rest && Value(t[0]) == n / 16 && Value(t[1]) == n % 16;
  }

  /** Decoding stops at the first pair that is not two digits, whatever follows, and at an odd last digit. */
  lemma {:induction false} StopsExactly(b: Bytes, t: Text)
    requires |t| < 2 || Value(t[0]) == 16 || Value(t[1]) == 16
    ensures Decode(Encode(b) + t) == b
  {
    hide Digit;
    if b == [] {
      assert Encode(b) + t == t;
    } else {
      hide Decode;
      StopsExactly(b[1..], t);
      PairReads(b[0], Encode(b[1..]) + t);
      assert Encode(b) + t == [Digit(b[0] / 16), Digit(b[0] % 16)] + (Encode(b[1..]) + t);
    }
  }

  lemma {:induction false} RoundTrip(b: Bytes)
    ensures Decode(Encode(b)) == b
  {
    StopsExactly(b, []);
    assert Encode(b) + [] == Encode(b);
  }
}
