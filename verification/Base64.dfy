/**
 * URL-safe base64 (section 5 of RFC 4648), as Python's urlsafe_b64encode and urlsafe_b64decode do it. The decoder
 * also takes the standard alphabet, skips characters of neither, stops at complete padding, and refuses text that
 * ends inside a group.
 */
module Base64 {
  import opened Prelude

  const PAD: CodePoint := 61

  type Sextet = x: int | 0 <= x < 64

  function Letter(n: Sextet): (c: CodePoint)
    ensures c < 0x80 && c != PAD
  {
    if n < 26 then 65 + n else if n < 52 then 71 + n else if n < 62 then n - 4 else if n == 62 then 45 else 95
  }

  /** The value of a letter of either alphabet, or 64. */
  function Value(c: CodePoint): (n: int)
    ensures 0 <= n <= 64
  {
    if 65 <= c <= 90 then c - 65
    else if 97 <= c <= 122 then c - 71
    else if 48 <= c <= 57 then c + 4
    else if c == 45 || c == 43 then 62
    else if c == 95 || c == 47 then 63
    else 64
  }

  lemma {:induction false} ValueOfLetter(n: Sextet)
    ensures Value(Letter(n)) == n
  {
  }

  function Encode(b: Bytes): (t: Text)
    ensures |t| == 4 * ((|b| + 2) / 3)
    ensures IsAscii(t)
  {
    if b == [] then []
    else if |b| == 1 then [Letter(b[0] / 4), Letter(b[0] % 4 * 16), PAD, PAD]
    else if |b| == 2 then [Letter(b[0] / 4), Letter(b[0] % 4 * 16 + b[1] / 16), Letter(b[1] % 16 * 4), PAD]
    else
      [Letter(b[0] / 4), Letter(b[0] % 4 * 16 + b[1] / 16), Letter(b[1] % 16 * 4 + b[2] / 64), Letter(b[2] % 64)]
      + Encode(b[3..])
  }

  /** A letter of the URL-safe alphabet: there is no plus sign and no slash. */
  predicate IsUrlSafe(c: CodePoint) {
    65 <= c <= 90 || 97 <= c <= 122 || 48 <= c <= 57 || c == 45 || c == 95
  }

  /** An encoding is letters of the URL-safe alphabet, then the padding of its last group. */
  lemma {:induction false} EncodingIsUrlSafe(b: Bytes)
    ensures var t, n := Encode(b), (4 * |b| + 2) / 3;
            && n <= |t| < n + 3
            && (forall i | 0 <= i < n :: IsUrlSafe(t[i]))
            && (forall i | n <= i < |t| :: t[i] == 61)
  {
    if |b| >= 3 {
      EncodingIsUrlSafe(b[3..]);
      var t, rest := Encode(b), Encode(b[3..]);
      assert t[4..] == rest;
      assert (4 * |b| + 2) / 3 == (4 * |b[3..]| + 2) / 3 + 4;
      forall i | 4 <= i < |t|
        ensures t[i] == rest[i - 4]
      {
      }
    }
  }

  /** The byte completed by sextet n, the one before it having left these bits over. */
  function Completed(place: int, left: int, n: Sextet): (b: Byte)
    requires (place == 1 && 0 <= left < 64) || (place == 2 && 0 <= left < 16) || (place == 3 && 0 <= left < 4)
  {
    if place == 1 then left * 4 + n / 16 else if place == 2 then left * 16 + n / 4 else left * 64 + n
  }

  predicate InGroup(place: int, left: int) {
    || (place == 0 && left == 0) || (place == 1 && 0 <= left < 64)
    || (place == 2 && 0 <= left < 16) || (place == 3 && 0 <= left < 4)
  }

  /** The decoder's loop: its place in the group of four, the bits left over, and the padding seen in a row. */
  function Scan(t: Text, place: int, left: int, pads: int): (b: Option<Bytes>)
    requires InGroup(place, left)
  {
    if t == [] then if place == 0 then Some([]) else None
    else if t[0] == PAD then
      if place >= 2 && place + pads + 1 >= 4 then Some([])
      else Scan(t[1..], place, left, if place >= 2 then pads + 1 else pads)
    else if Value(t[0]) == 64 then Scan(t[1..], place, left, pads)
    else
      var n := Value(t[0]);
      if place == 0 then Scan(t[1..], 1, n, 0)
      else
        var next := if place == 3 then 0 else place + 1;
        match Scan(t[1..], next, if place == 1 then n % 16 else if place == 2 then n % 4 else 0, 0)
        case None => None
        case Some(rest) => Some([Completed(place, left, n)] + rest)
  }

  function Decode(t: Text): (b: Option<Bytes>) {
    if IsAscii(t) then Scan(t, 0, 0, 0) else None
  }

  lemma {:induction false} ScanFirst(n: Sextet, rest: Text)
    ensures Scan([Letter(n)] + rest, 0, 0, 0) == Scan(rest, 1, n, 0)
  {
    ValueOfLetter(n);
    assert ([Letter(n)] + rest)[1..] == rest;
  }

  lemma {:induction false} ScanNext(n: Sextet, rest: Text, place: int, left: int)
    requires InGroup(place, left) && place > 0
    ensures var next := if place == 3 then 0 else place + 1;
            Scan([Letter(n)] + rest, place, left, 0)
            == match Scan(rest, next, if place == 1 then n % 16 else if place == 2 then n % 4 else 0, 0)
               case None => None
               case Some(b) => Some([Completed(place, left, n)] + b)
  {
    ValueOfLetter(n);
    assert ([Letter(n)] + rest)[1..] == rest;
  }

  lemma {:induction false} OneByte(a: Byte)
    ensures Scan(Encode([a]), 0, 0, 0) == Some([a])
  {
    var u, v := a / 4, a % 4 * 16;
    assert Encode([a]) == [Letter(u)] + ([Letter(v)] + [PAD, PAD]);
    ScanFirst(u, [Letter(v)] + [PAD, PAD]);
    ScanNext(v, [PAD, PAD], 1, u);
    assert [PAD, PAD][1..] == [PAD];
    assert Scan([PAD], 2, v % 16, 1) == Some([]);
    assert Scan([PAD, PAD], 2, v % 16, 0) == Some([]);
    assert Completed(1, u, v) == a;
    assert [a] + [] == [a];
  }

  lemma {:induction false} TwoBytes(a: Byte, b: Byte)
    ensures Scan(Encode([a, b]), 0, 0, 0) == Some([a, b])
  {
    var u, v, w := a / 4, a % 4 * 16 + b / 16, b % 16 * 4;
    assert Encode([a, b]) == [Letter(u)] + ([Letter(v)] + ([Letter(w)] + [PAD]));
    ScanFirst(u, [Letter(v)] + ([Letter(w)] + [PAD]));
    ScanNext(v, [Letter(w)] + [PAD], 1, u);
    ScanNext(w, [PAD], 2, v % 16);
    assert v / 16 == a % 4 && v % 16 == b / 16;
    assert Completed(1, u, v) == a && Completed(2, v % 16, w) == b;
    assert [a] + ([b] + []) == [a, b];
  }

  /** The bits of three bytes are those of four sextets. */
  lemma {:induction false} GroupBits(a: Byte, b: Byte, c: Byte)
    ensures var v, w := a % 4 * 16 + b / 16, b % 16 * 4 + c / 64;
            && 0 <= v < 64 && 0 <= w < 64
            && Completed(1, a / 4, v) == a && Completed(2, v % 16, w) == b && Completed(3, w % 4, c % 64) == c
  {
    var v, w := a % 4 * 16 + b / 16, b % 16 * 4 + c / 64;
    assert v / 16 == a % 4 && v % 16 == b / 16 && w / 4 == b % 16 && w % 4 == c / 64;
  }

  /** A full group decodes to its three bytes, whatever follows. */
  lemma {:induction false} ThreeBytes(a: Byte, b: Byte, c: Byte, tail: Text)
    ensures Scan([Letter(a / 4), Letter(a % 4 * 16 + b / 16), Letter(b % 16 * 4 + c / 64), Letter(c % 64)] + tail, 0, 0, 0)
            == match Scan(tail, 0, 0, 0) case None => None case Some(rest) => Some([a, b, c] + rest)
  {
    hide Scan, Letter, Completed;
    GroupBits(a, b, c);
    var u, v, w, x := a / 4, a % 4 * 16 + b / 16, b % 16 * 4 + c / 64, c % 64;
    assert [Letter(u), Letter(v), Letter(w), Letter(x)] + tail
        == [Letter(u)] + ([Letter(v)] + ([Letter(w)] + ([Letter(x)] + tail)));
    ScanFirst(u, [Letter(v)] + ([Letter(w)] + ([Letter(x)] + tail)));
    ScanNext(v, [Letter(w)] + ([Letter(x)] + tail), 1, u);
    ScanNext(w, [Letter(x)] + tail, 2, v % 16);
    ScanNext(x, tail, 3, w % 4);
    if Scan(tail, 0, 0, 0).Some? {
      var rest := Scan(tail, 0, 0, 0).value;
      assert [a] + ([b] + ([c] + rest)) == [a, b, c] + rest;
    }
  }

  lemma {:induction false} RoundTrip(b: Bytes)
    ensures Decode(Encode(b)) == Some(b)
  {
    if b == [] {
    } else if |b| == 1 {
      OneByte(b[0]);
      assert b == [b[0]];
    } else if |b| == 2 {
      TwoBytes(b[0], b[1]);
      assert b == [b[0], b[1]];
    } else {
      RoundTrip(b[3..]);
      ThreeBytes(b[0], b[1], b[2], Encode(b[3..]));
      assert b == [b[0], b[1], b[2]] + b[3..];
    }
  }

  // --- What the decoder forgives ---------------------------------------------------------------------

  lemma {:induction false} ScanSkips(a: Text, c: CodePoint, b: Text, place: int, left: int, pads: int)
    requires InGroup(place, left) && c != PAD && Value(c) == 64
    ensures Scan(a + ([c] + b), place, left, pads) == Scan(a + b, place, left, pads)
  {
    var t, u := a + ([c] + b), a + b;
    if a == [] {
      assert t[1..] == b && u == b;
    } else {
      assert t[1..] == a[1..] + ([c] + b) && u[1..] == a[1..] + b;
      if a[0] == PAD {
        ScanSkips(a[1..], c, b, place, left, if place >= 2 then pads + 1 else pads);
      } else if Value(a[0]) == 64 {
        ScanSkips(a[1..], c, b, place, left, pads);
      } else {
        var n := Value(a[0]);
        if place == 0 {
          ScanSkips(a[1..], c, b, 1, n, 0);
        } else {
          var next := if place == 3 then 0 else place + 1;
          ScanSkips(a[1..], c, b, next, if place == 1 then n % 16 else if place == 2 then n % 4 else 0, 0);
        }
      }
    }
  }

  lemma {:induction false} AsciiParts(a: Text, b: Text)
    ensures IsAscii(a + b) <==> IsAscii(a) && IsAscii(b)
  {
    var t := a + b;
    assert forall i | 0 <= i < |a| :: t[i] == a[i];
    assert forall i | 0 <= i < |b| :: t[|a| + i] == b[i];
  }

  lemma {:induction false} OneIsAscii(c: CodePoint)
    requires c < 0x80
    ensures IsAscii([c])
  {
  }

  /** An ASCII character of neither alphabet makes no difference, wherever it stands. */
  lemma {:induction false} SkipsForeign(a: Text, c: CodePoint, b: Text)
    requires c < 0x80 && !IsUrlSafe(c) && c != 43 && c != 47 && c != 61
    ensures Decode(a + ([c] + b)) == Decode(a + b)
  {
    hide Scan, IsAscii;
    ScanSkips(a, c, b, 0, 0, 0);
    AsciiParts(a, b);
    AsciiParts([c], b);
    AsciiParts(a, [c] + b);
    OneIsAscii(c);
  }

  /** The text in the standard alphabet: plus signs and slashes for hyphens and underscores. */
  function Standard(t: Text): (u: Text)
    ensures |u| == |t|
    ensures forall i | 0 <= i < |t| :: u[i] == if t[i] == 45 then 43 else if t[i] == 95 then 47 else t[i]
  {
    seq(|t|, i requires 0 <= i < |t| => if t[i] == 45 then 43 else if t[i] == 95 then 47 else t[i])
  }

  lemma {:induction false} ScanStandard(t: Text, place: int, left: int, pads: int)
    requires InGroup(place, left)
    ensures Scan(Standard(t), place, left, pads) == Scan(t, place, left, pads)
  {
    if t != [] {
      var u := Standard(t);
      assert u[1..] == Standard(t[1..]) && Value(u[0]) == Value(t[0]);
      if t[0] == PAD {
        ScanStandard(t[1..], place, left, if place >= 2 then pads + 1 else pads);
      } else if Value(t[0]) == 64 {
        ScanStandard(t[1..], place, left, pads);
      } else if place == 0 {
        ScanStandard(t[1..], 1, Value(t[0]), 0);
      } else {
        var n, next := Value(t[0]), if place == 3 then 0 else place + 1;
        ScanStandard(t[1..], next, if place == 1 then n % 16 else if place == 2 then n % 4 else 0, 0);
      }
    }
  }

  /** Both alphabets read the same. */
  lemma {:induction false} StandardReads(t: Text)
    ensures Decode(Standard(t)) == Decode(t)
  {
    hide Scan;
    ScanStandard(t, 0, 0, 0);
  }

  /** The encoding without its padding. */
  function Unpadded(b: Bytes): (t: Text)
    ensures IsAscii(t)
  {
    Encode(b)[..(4 * |b| + 2) / 3]
  }

  lemma {:induction false} UnpaddedEnds(a: Byte, b: Byte)
    ensures Decode(Unpadded([])) == Some([])
    ensures Decode(Unpadded([a])) == None
    ensures Decode(Unpadded([a, b])) == None
  {
    var u, v, x, w := a / 4, a % 4 * 16, a % 4 * 16 + b / 16, b % 16 * 4;
    assert Unpadded([a]) == [Letter(u)] + ([Letter(v)] + []);
    assert Unpadded([a, b]) == [Letter(u)] + ([Letter(x)] + ([Letter(w)] + []));
    ScanFirst(u, [Letter(v)] + []);
    ScanNext(v, [], 1, u);
    ScanFirst(u, [Letter(x)] + ([Letter(w)] + []));
    ScanNext(x, [Letter(w)] + [], 1, u);
    ScanNext(w, [], 2, x % 16);
  }

  lemma {:induction false} UnpaddedGroup(b: Bytes)
    requires |b| >= 3
    ensures Unpadded(b) == [Letter(b[0] / 4), Letter(b[0] % 4 * 16 + b[1] / 16), Letter(b[1] % 16 * 4 + b[2] / 64),
                            Letter(b[2] % 64)] + Unpadded(b[3..])
  {
    hide Letter;
    var n := (4 * |b[3..]| + 2) / 3;
    assert (4 * |b| + 2) / 3 == n + 4;
  }

  lemma {:induction false} UnpaddedStep(b: Bytes)
    requires |b| >= 3
    ensures Decode(Unpadded(b))
            == match Decode(Unpadded(b[3..])) case None => None case Some(rest) => Some([b[0], b[1], b[2]] + rest)
  {
    hide Letter, Encode, Scan, Unpadded;
    UnpaddedGroup(b);
    ThreeBytes(b[0], b[1], b[2], Unpadded(b[3..]));
  }

  /** The documented reading of unpadded text: it works exactly when there was no padding to remove. */
  lemma {:induction false} UnpaddedExactly(b: Bytes)
    ensures Decode(Unpadded(b)) == if |b| % 3 == 0 then Some(b) else None
  {
    hide Letter, Encode, Decode, Unpadded;
    if |b| < 3 {
      UnpaddedEnds(if |b| > 0 then b[0] else 0, if |b| > 1 then b[1] else 0);
      assert b == [] || b == [b[0]] || b == [b[0], b[1]];
    } else {
      UnpaddedExactly(b[3..]);
      UnpaddedStep(b);
      assert b == [b[0], b[1], b[2]] + b[3..];
    }
  }
}
