/**
 * UTF-8 (section 3 of RFC 3629) between JavaScript strings and bytes, as Node's Buffer does it:
 * a lone surrogate is written as U+FFFD, and each ill-formed byte subsequence is read as U+FFFD.
 */
module Utf8 {
  import opened Prelude

  const REPLACEMENT: CodePoint := 0xFFFD

  predicate IsHigh(c: CodePoint) { 0xD800 <= c < 0xDC00 }

  predicate IsLow(c: CodePoint) { 0xDC00 <= c < 0xE000 }

  predicate IsSurrogate(c: CodePoint) { 0xD800 <= c < 0xE000 }

  /** The code point of a surrogate pair. */
  function Join(hi: CodePoint, lo: CodePoint): (c: CodePoint)
    requires IsHigh(hi) && IsLow(lo)
    ensures 0x10000 <= c && HighOf(c) == hi && LowOf(c) == lo
  {
    0x10000 + (hi - 0xD800) * 0x400 + (lo - 0xDC00)
  }

  function HighOf(c: CodePoint): (hi: CodePoint)
    requires 0x10000 <= c
    ensures IsHigh(hi)
  {
    0xD800 + (c - 0x10000) / 0x400
  }

  function LowOf(c: CodePoint): (lo: CodePoint)
    requires 0x10000 <= c
    ensures IsLow(lo)
  {
    0xDC00 + (c - 0x10000) % 0x400
  }

  /** The UTF-16 code units of a code point. */
  function Units(c: CodePoint): (u: Text)
    ensures 1 <= |u| <= 2
  {
    if c < 0x10000 then [c] else [HighOf(c), LowOf(c)]
  }

  predicate StartsWithPair(t: Text) {
    |t| >= 2 && IsHigh(t[0]) && IsLow(t[1])
  }

  /** Every surrogate belongs to a pair, and every element is a code unit. */
  predicate WellFormed(t: Text) {
    t == []
    || (StartsWithPair(t) && WellFormed(t[2..]))
    || (t[0] < 0x10000 && !IsSurrogate(t[0]) && WellFormed(t[1..]))
  }

  /** The bytes of one scalar value. */
  function EncodeScalar(c: CodePoint): (b: Bytes)
    requires !IsSurrogate(c)
    ensures 1 <= |b| <= 4
  {
    if c < 0x80 then [c]
    else if c < 0x800 then [0xC0 + c / 0x40, 0x80 + c % 0x40]
    else if c < 0x10000 then [0xE0 + c / 0x1000, 0x80 + c / 0x40 % 0x40, 0x80 + c % 0x40]
    else [0xF0 + c / 0x40000, 0x80 + c / 0x1000 % 0x40, 0x80 + c / 0x40 % 0x40, 0x80 + c % 0x40]
  }

  /** Buffer.from(t, 'utf-8'). */
  function Encode(t: Text): (b: Bytes) {
    if t == [] then []
    else if StartsWithPair(t) then EncodeScalar(Join(t[0], t[1])) + Encode(t[2..])
    else EncodeScalar(if IsSurrogate(t[0]) then REPLACEMENT else t[0]) + Encode(t[1..])
  }

  /** A surrogate without its other half becomes the three bytes of the replacement character. */
  lemma {:induction false} LoneSurrogate(c: CodePoint, rest: Text)
    requires IsSurrogate(c) && !StartsWithPair([c] + rest)
    ensures Encode([c] + rest) == [0xEF, 0xBF, 0xBD] + Encode(rest)
  {
    assert ([c] + rest)[1..] == rest;
  }

  lemma {:induction false} EncodeAfter(c: CodePoint, rest: Text)
    requires !IsSurrogate(c)
    ensures Encode([c] + rest) == EncodeScalar(c) + Encode(rest)
  {
    assert ([c] + rest)[1..] == rest;
  }

  lemma {:induction false} AsciiFirst(t: Text, rest: Text, u: Text)
    requires t != [] && t[0] < 0x80 && u == t[1..] + rest
    ensures |Encode(t + rest)| == 1 + |Encode(u)|
  {
    assert t + rest == [t[0]] + u;
    EncodeAfter(t[0], u);
  }

  /** ASCII text in front of rest adds one byte a character. */
  lemma {:induction false} AsciiAdds(t: Text, rest: Text)
    requires forall i | 0 <= i < |t| :: t[i] < 0x80
    ensures |Encode(t + rest)| == |t| + |Encode(rest)|
  {
    if t == [] {
      assert t + rest == rest;
    } else {
      AsciiAdds(t[1..], rest);
      AsciiFirst(t, rest, t[1..] + rest);
    }
  }

  predicate IsContinuation(b: Bytes, i: nat) {
    i < |b| && 0x80 <= b[i] < 0xC0
  }

  /** Whether the second byte is allowed after the lead byte (Table 3-7 of the Unicode Standard). */
  predicate SecondByteFits(b: Bytes)
    requires |b| >= 1
  {
    && IsContinuation(b, 1)
    && (b[0] == 0xE0 ==> b[1] >= 0xA0)
    && (b[0] == 0xED ==> b[1] < 0xA0)
    && (b[0] == 0xF0 ==> b[1] >= 0x90)
    && (b[0] == 0xF4 ==> b[1] < 0x90)
  }

  /** The payload bits of byte i: its value less the marker of its position. */
  function Bits(b: Bytes, i: nat, marker: int): (n: int)
    requires i < |b|
    ensures n == b[i] - marker
  {
    var v: int := b[i];
    v - marker
  }

  /** The bytes of a scalar value are those of the table of RFC 3629: how many, their markers, and the bits they carry. */
  lemma {:induction false} ScalarBytes(c: CodePoint)
    requires !IsSurrogate(c)
    ensures var b := EncodeScalar(c);
            && |b| == (if c < 0x80 then 1 else if c < 0x800 then 2 else if c < 0x10000 then 3 else 4)
            && (forall i | 1 <= i < |b| :: 0x80 <= b[i] < 0xC0)
            && (|b| == 1 ==> b == [c])
            && (|b| == 2 ==> 0xC0 <= b[0] < 0xE0 && Bits(b, 0, 0xC0) * 0x40 + Bits(b, 1, 0x80) == c)
            && (|b| == 3 ==>
                && 0xE0 <= b[0] < 0xF0
                && Bits(b, 0, 0xE0) * 0x1000 + Bits(b, 1, 0x80) * 0x40 + Bits(b, 2, 0x80) == c)
            && (|b| == 4 ==>
                && 0xF0 <= b[0] < 0xF8
                && Bits(b, 0, 0xF0) * 0x40000 + Bits(b, 1, 0x80) * 0x1000 + Bits(b, 2, 0x80) * 0x40 + Bits(b, 3, 0x80) == c)
  {
    var low, middle, high := c % 0x40, c / 0x40 % 0x40, c / 0x1000 % 0x40;
    assert c == c / 0x40 * 0x40 + low && c / 0x40 == c / 0x1000 * 0x40 + middle;
    assert c / 0x1000 == c / 0x40000 * 0x40 + high;
  }

  function TwoBytes(b: Bytes): (c: int)
    requires |b| >= 2
  {
    Bits(b, 0, 0xC0) * 0x40 + Bits(b, 1, 0x80)
  }

  function ThreeBytes(b: Bytes): (c: int)
    requires |b| >= 3
  {
    Bits(b, 0, 0xE0) * 0x1000 + Bits(b, 1, 0x80) * 0x40 + Bits(b, 2, 0x80)
  }

  function FourBytes(b: Bytes): (c: int)
    requires |b| >= 4
  {
    Bits(b, 0, 0xF0) * 0x40000 + Bits(b, 1, 0x80) * 0x1000 + Bits(b, 2, 0x80) * 0x40 + Bits(b, 3, 0x80)
  }

  /** The first code units read from b, and how many bytes they take. */
  function DecodeStep(b: Bytes): (r: (Text, nat))
    requires b != []
    ensures 1 <= r.1 <= |b|
    ensures 1 <= |r.0| <= 2 && WellFormed(r.0)
    ensures |r.0| == 2 ==> StartsWithPair(r.0)
  {
    if b[0] < 0x80 then ([b[0]], 1)
    else if b[0] < 0xC2 || b[0] > 0xF4 || !SecondByteFits(b) then ([REPLACEMENT], 1)
    else if b[0] < 0xE0 then ([TwoBytes(b)], 2)
    else if !IsContinuation(b, 2) then ([REPLACEMENT], 2)
    else if b[0] < 0xF0 then ([ThreeBytes(b)], 3)
    else if !IsContinuation(b, 3) then ([REPLACEMENT], 3)
    else (Units(FourBytes(b)), 4)
  }

  /** Buffer.toString('utf-8'). */
  function Decode(b: Bytes): (t: Text) {
    if b == [] then []
    else var (u, n) := DecodeStep(b); u + Decode(b[n..])
  }

  lemma {:induction false} StepReadsTwo(c: CodePoint, b: Bytes)
    requires 0x80 <= c < 0x800 && |b| >= 2 && b[..2] == EncodeScalar(c)
    ensures DecodeStep(b) == ([c], 2)
  {
    assert b[0] == EncodeScalar(c)[0] && b[1] == EncodeScalar(c)[1];
  }

  lemma {:induction false} StepReadsThree(c: CodePoint, b: Bytes)
    requires 0x800 <= c < 0x10000 && !IsSurrogate(c) && |b| >= 3 && b[..3] == EncodeScalar(c)
    ensures DecodeStep(b) == ([c], 3)
  {
    var q := c / 0x40;
    assert q / 0x40 == c / 0x1000;
    assert b[0] == 0xE0 + q / 0x40 && b[1] == 0x80 + q % 0x40 && b[2] == 0x80 + c % 0x40;
  }

  lemma {:induction false} StepReadsFour(c: CodePoint, b: Bytes)
    requires 0x10000 <= c && |b| >= 4 && b[..4] == EncodeScalar(c)
    ensures DecodeStep(b) == (Units(c), 4)
  {
    var q := c / 0x40;
    var p := q / 0x40;
    assert p == c / 0x1000 && p / 0x40 == c / 0x40000;
    assert b[0] == 0xF0 + p / 0x40 && b[1] == 0x80 + p % 0x40 && b[2] == 0x80 + q % 0x40 && b[3] == 0x80 + c % 0x40;
  }

  lemma {:induction false} StepReadsScalar(c: CodePoint, rest: Bytes)
    requires !IsSurrogate(c)
    ensures DecodeStep(EncodeScalar(c) + rest) == (Units(c), |EncodeScalar(c)|)
  {
    var b := EncodeScalar(c) + rest;
    assert b[..|EncodeScalar(c)|] == EncodeScalar(c);
    if c < 0x80 {
      assert b[0] == c;
    } else if c < 0x800 {
      StepReadsTwo(c, b);
    } else if c < 0x10000 {
      StepReadsThree(c, b);
    } else {
      StepReadsFour(c, b);
    }
  }

  lemma {:induction false} DecodeScalarThen(c: CodePoint, rest: Bytes)
    requires !IsSurrogate(c)
    ensures Decode(EncodeScalar(c) + rest) == Units(c) + Decode(rest)
  {
    StepReadsScalar(c, rest);
    assert (EncodeScalar(c) + rest)[|EncodeScalar(c)|..] == rest;
  }

  /** Text whose surrogates are all paired survives the trip through bytes. */
  lemma {:induction false} RoundTrip(t: Text)
    requires WellFormed(t)
    ensures Decode(Encode(t)) == t
  {
    if t == [] {
    } else if StartsWithPair(t) {
      RoundTrip(t[2..]);
      DecodeScalarThen(Join(t[0], t[1]), Encode(t[2..]));
      assert t == [t[0], t[1]] + t[2..];
    } else {
      RoundTrip(t[1..]);
      DecodeScalarThen(t[0], Encode(t[1..]));
      assert t == [t[0]] + t[1..];
    }
  }

  /** Decoding always yields well-formed text, so a text that is not well formed cannot survive. */
  lemma {:induction false} DecodeIsWellFormed(b: Bytes)
    ensures WellFormed(Decode(b))
  {
    if b != [] {
      var (u, n) := DecodeStep(b);
      DecodeIsWellFormed(b[n..]);
      var t := u + Decode(b[n..]);
      if |u| == 1 {
        assert t[1..] == Decode(b[n..]);
      } else {
        assert t[2..] == Decode(b[n..]);
      }
    }
  }

  lemma {:induction false} WellFormedIsUnits(t: Text)
    requires WellFormed(t)
    ensures IsUnits(t)
  {
    if t == [] {
    } else if StartsWithPair(t) {
      WellFormedIsUnits(t[2..]);
      assert t == [t[0], t[1]] + t[2..];
    } else {
      WellFormedIsUnits(t[1..]);
      assert t == [t[0]] + t[1..];
    }
  }

  /** The exact condition for a lossless trip. */
  lemma {:induction false} SurvivesExactlyWhenWellFormed(t: Text)
    ensures Decode(Encode(t)) == t <==> WellFormed(t)
  {
    DecodeIsWellFormed(Encode(t));
    if WellFormed(t) {
      RoundTrip(t);
    }
  }

  lemma {:induction false} AsciiIsWellFormed(t: Text)
    requires IsAscii(t)
    ensures WellFormed(t) && |Encode(t)| == |t|
  {
    if t != [] {
      AsciiIsWellFormed(t[1..]);
    }
  }
}
