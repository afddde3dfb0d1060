/**
 * What the UTF-8 decoder makes of ill-formed bytes: one replacement character for each maximal subpart, as section 3.9
 * of the Unicode Standard recommends and Node's Buffer does. The definition here does not follow the decoder.
 */
module MaximalSubparts {
  import opened Prelude
  import opened Utf8

  /** These bytes start, or are, the encoding of some scalar value. */
  ghost predicate Begins(p: Bytes) {
    exists c: CodePoint :: !IsSurrogate(c) && p <= EncodeScalar(c)
  }

  /** The encoding of some scalar value stands at the front. */
  ghost predicate IsRead(b: Bytes, c: CodePoint) {
    !IsSurrogate(c) && EncodeScalar(c) <= b
  }

  /** The shape of every encoding: its lead byte says how long it is, and restricts the second byte. */
  lemma {:induction false} Shape(c: CodePoint)
    requires !IsSurrogate(c)
    ensures var e := EncodeScalar(c);
            && (|e| == 1 <==> e[0] < 0x80) && (|e| == 2 <==> 0xC2 <= e[0] < 0xE0) && (|e| == 3 <==> 0xE0 <= e[0] < 0xF0)
            && (|e| == 4 <==> 0xF0 <= e[0] <= 0xF4)
            && (|e| > 1 ==> SecondByteFits(e)) && (|e| > 2 ==> IsContinuation(e, 2)) && (|e| > 3 ==> IsContinuation(e, 3))
  {
    var q, p := c / 0x40, c / 0x1000;
    assert q == p * 0x40 + q % 0x40 && p == p / 0x40 * 0x40 + p % 0x40;
    assert q / 0x40 == p && p / 0x40 == c / 0x40000;
  }

  // --- Bytes that are, or can become, an encoding ----------------------------------------------------

  lemma {:induction false} TwoIsRead(b: Bytes)
    requires |b| >= 2 && 0xC2 <= b[0] < 0xE0 && IsContinuation(b, 1)
    ensures IsRead(b, TwoBytes(b))
  {
    var c := TwoBytes(b);
    assert c / 0x40 == Bits(b, 0, 0xC0) && c % 0x40 == Bits(b, 1, 0x80);
    assert EncodeScalar(c) == b[..2];
  }

  lemma {:induction false} ThreeIsRead(b: Bytes)
    requires |b| >= 3 && 0xE0 <= b[0] < 0xF0 && SecondByteFits(b) && IsContinuation(b, 2)
    ensures IsRead(b, ThreeBytes(b))
  {
    var c, x, y, z := ThreeBytes(b), Bits(b, 0, 0xE0), Bits(b, 1, 0x80), Bits(b, 2, 0x80);
    assert c / 0x40 == x * 0x40 + y && c % 0x40 == z;
    assert (x * 0x40 + y) / 0x40 == x && (x * 0x40 + y) % 0x40 == y && c / 0x1000 == x;
    assert EncodeScalar(c) == b[..3];
  }

  lemma {:induction false} FourIsRead(b: Bytes)
    requires |b| >= 4 && 0xF0 <= b[0] <= 0xF4 && SecondByteFits(b) && IsContinuation(b, 2) && IsContinuation(b, 3)
    ensures 0 <= FourBytes(b) < 0x110000 && IsRead(b, FourBytes(b))
  {
    var w, x, y, z := Bits(b, 0, 0xF0), Bits(b, 1, 0x80), Bits(b, 2, 0x80), Bits(b, 3, 0x80);
    var c: CodePoint := FourBytes(b);
    assert c / 0x40 == (w * 0x40 + x) * 0x40 + y && c % 0x40 == z;
    assert c / 0x1000 == w * 0x40 + x && c / 0x40 % 0x40 == y;
    assert c / 0x40000 == w && c / 0x1000 % 0x40 == x;
    assert EncodeScalar(c) == b[..4];
  }

  /** Two bytes that fit begin an encoding: fill it up with the least continuation bytes. */
  lemma {:induction false} TwoBegin(p: Bytes)
    requires |p| == 2 && 0xE0 <= p[0] <= 0xF4 && SecondByteFits(p)
    ensures Begins(p)
  {
    var b := p + [0x80, 0x80];
    if p[0] < 0xF0 {
      ThreeIsRead(b);
      assert EncodeScalar(ThreeBytes(b)) == b[..3];
    } else {
      FourIsRead(b);
      assert EncodeScalar(FourBytes(b)) == b[..4];
    }
  }

  lemma {:induction false} ThreeBegin(p: Bytes)
    requires |p| == 3 && 0xF0 <= p[0] <= 0xF4 && SecondByteFits(p) && IsContinuation(p, 2)
    ensures Begins(p)
  {
    var b := p + [0x80];
    FourIsRead(b);
    assert EncodeScalar(FourBytes(b)) == b[..4];
  }

  // --- The decoder's step ----------------------------------------------------------------------------

  /** What begins an encoding has its shape. */
  lemma {:induction false} BeginsHasShape(p: Bytes)
    requires Begins(p) && |p| >= 2
    ensures 0xC2 <= p[0] <= 0xF4 && SecondByteFits(p)
    ensures |p| >= 3 ==> p[0] >= 0xE0 && IsContinuation(p, 2)
    ensures |p| >= 4 ==> p[0] >= 0xF0 && IsContinuation(p, 3)
  {
    var c: CodePoint :| !IsSurrogate(c) && p <= EncodeScalar(c);
    Shape(c);
  }

  /** The bytes at the front have the shape of an encoding. */
  predicate IsShaped(b: Bytes)
    requires |b| >= 1
  {
    && 0xC2 <= b[0] <= 0xF4 && SecondByteFits(b)
    && (b[0] >= 0xE0 ==> IsContinuation(b, 2)) && (b[0] >= 0xF0 ==> IsContinuation(b, 3))
  }

  /** An encoding at the front has that shape. */
  lemma {:induction false} ReadHasShape(b: Bytes, c: CodePoint)
    requires b != [] && IsRead(b, c) && b[0] >= 0x80
    ensures IsShaped(b)
  {
    Shape(c);
  }

  lemma {:induction false} NoneRead(b: Bytes)
    requires b != [] && b[0] >= 0x80 && !IsShaped(b)
    ensures forall c: CodePoint :: !IsRead(b, c)
  {
    forall c: CodePoint
      ensures !IsRead(b, c)
    {
      if IsRead(b, c) {
        ReadHasShape(b, c);
      }
    }
  }

  /** Where the decoder stops, one more byte no longer begins an encoding. */
  lemma {:induction false} StopsAtMaximum(b: Bytes)
    requires b != [] && b[0] >= 0x80 && !IsShaped(b)
    ensures var n := DecodeStep(b).1; (n == 1 || Begins(b[..n])) && (n == |b| || !Begins(b[..n + 1]))
  {
    hide Begins;
    var n := DecodeStep(b).1;
    if n == 2 {
      TwoBegin(b[..2]);
    } else if n == 3 {
      ThreeBegin(b[..3]);
    }
    if n < |b| && Begins(b[..n + 1]) {
      BeginsHasShape(b[..n + 1]);
    }
  }

  lemma {:induction false} ShapedIsRead(b: Bytes) returns (d: CodePoint)
    requires b != [] && (b[0] < 0x80 || IsShaped(b))
    ensures IsRead(b, d) && DecodeStep(b) == (Units(d), |EncodeScalar(d)|)
  {
    if b[0] < 0x80 {
      d := b[0];
    } else if b[0] < 0xE0 {
      TwoIsRead(b);
      d := TwoBytes(b);
    } else if b[0] < 0xF0 {
      ThreeIsRead(b);
      d := ThreeBytes(b);
    } else {
      FourIsRead(b);
      d := FourBytes(b);
    }
  }

  /**
   * At an encoding the decoder reads its scalar value. Elsewhere it writes one replacement character for the longest
   * bytes that begin an encoding, or for a single byte when none do.
   */
  lemma {:induction false} StepIsMaximal(b: Bytes)
    requires b != []
    ensures var (u, n) := DecodeStep(b);
            if exists c: CodePoint :: IsRead(b, c) then
              exists d: CodePoint :: IsRead(b, d) && u == Units(d) && n == |EncodeScalar(d)|
            else
              u == [REPLACEMENT] && (n == 1 || Begins(b[..n])) && (n == |b| || !Begins(b[..n + 1]))
  {
    hide Begins, IsRead;
    if b[0] < 0x80 || IsShaped(b) {
      var d := ShapedIsRead(b);
    } else {
      NoneRead(b);
      StopsAtMaximum(b);
    }
  }
}
