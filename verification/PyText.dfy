/** Python strings and bytes: strict UTF-8 both ways, and the whitespace that strip removes. */
module PyText {
  import opened Prelude
  import CanonicalJson
  import Utf8

  predicate NoSurrogate(t: Text) {
    forall i | 0 <= i < |t| :: !Utf8.IsSurrogate(t[i])
  }

  /** t.encode("utf-8"), which refuses surrogates. */
  function Encode(t: Text): (b: Option<Bytes>) {
    if NoSurrogate(t) then Some(Utf8.Encode(t)) else None
  }

  /** b.decode("utf-8"), which refuses ill-formed bytes: the only text it can give is the one that encodes to b. */
  function Decode(b: Bytes): (t: Option<Text>) {
    var joined := CanonicalJson.JoinPairs(Utf8.Decode(b));
    if Utf8.Encode(joined) == b then Some(joined) else None
  }

  lemma {:induction false} JoinedHasNoSurrogate(t: Text)
    requires Utf8.WellFormed(t)
    ensures NoSurrogate(CanonicalJson.JoinPairs(t))
  {
    if t == [] {
    } else if Utf8.StartsWithPair(t) {
      JoinedHasNoSurrogate(t[2..]);
    } else {
      JoinedHasNoSurrogate(t[1..]);
    }
  }

  /** Bytes that decode are the bytes of the text they decode to. */
  lemma {:induction false} EncodeInvertsDecode(b: Bytes)
    requires Decode(b).Some?
    ensures Encode(Decode(b).value) == Some(b)
    ensures NoSurrogate(Decode(b).value)
  {
    Utf8.DecodeIsWellFormed(b);
    JoinedHasNoSurrogate(Utf8.Decode(b));
  }

  /** The UTF-16 code units of a string without surrogates. */
  function AllUnits(t: Text): (u: Text) {
    if t == [] then [] else Utf8.Units(t[0]) + AllUnits(t[1..])
  }

  lemma {:induction false} DecodedUnits(t: Text)
    requires NoSurrogate(t)
    ensures Utf8.Decode(Utf8.Encode(t)) == AllUnits(t)
  {
    if t != [] {
      DecodedUnits(t[1..]);
      Utf8.DecodeScalarThen(t[0], Utf8.Encode(t[1..]));
    }
  }

  lemma {:induction false} JoinedUnits(t: Text)
    requires NoSurrogate(t)
    ensures CanonicalJson.JoinPairs(AllUnits(t)) == t
  {
    if t != [] {
      JoinedUnits(t[1..]);
      var u, rest := AllUnits(t), AllUnits(t[1..]);
      if t[0] < 0x10000 {
        assert u[1..] == rest;
      } else {
        assert u[2..] == rest;
      }
      assert t == [t[0]] + t[1..];
    }
  }

  /** Encoded text decodes to itself. */
  lemma {:induction false} DecodeInvertsEncode(t: Text)
    requires NoSurrogate(t)
    ensures Decode(Utf8.Encode(t)) == Some(t)
  {
    DecodedUnits(t);
    JoinedUnits(t);
  }

  lemma {:induction false} AsciiEncodes(t: Text)
    requires IsAscii(t)
    ensures NoSurrogate(t) && Utf8.Encode(t) == t
  {
    if t != [] {
      AsciiEncodes(t[1..]);
      assert t == [t[0]] + t[1..];
    }
  }

  /** str.isspace for one character. */
  predicate IsSpace(c: CodePoint) {
    || 9 <= c <= 13 || 28 <= c <= 32 || c in {0x85, 0xA0, 0x1680, 0x2028, 0x2029, 0x202F, 0x205F, 0x3000}
    || 0x2000 <= c <= 0x200A
  }

  /** not t.strip(). */
  predicate IsBlank(t: Text) {
    forall i | 0 <= i < |t| :: IsSpace(t[i])
  }

  /** t.lstrip(). */
  function StripLeft(t: Text): (u: Text) {
    if t != [] && IsSpace(t[0]) then StripLeft(t[1..]) else t
  }

  /** Only the whitespace in front goes: of ASCII, tab to return, the four separators and the space. */
  lemma {:induction false} StripsExactly(t: Text) returns (n: nat)
    ensures n <= |t| && StripLeft(t) == t[n..]
    ensures (forall i | 0 <= i < n :: IsSpace(t[i])) && (n < |t| ==> !IsSpace(t[n]))
    ensures forall i | 0 <= i < n && t[i] < 0x80 :: t[i] in {9, 10, 11, 12, 13, 28, 29, 30, 31, 32}
    ensures n < |t| ==> t[n] !in {9, 10, 11, 12, 13, 28, 29, 30, 31, 32}
  {
    if t != [] && IsSpace(t[0]) {
      var m := StripsExactly(t[1..]);
      n := m + 1;
      assert forall i | 1 <= i < n :: t[i] == t[1..][i - 1];
    } else {
      n := 0;
    }
  }
}
