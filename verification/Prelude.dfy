/** Types shared by every module: optional values, bytes and text. */
module Prelude {

  datatype Option<+T> = None | Some(value: T)

  /** A value returned, or the failure thrown. */
  datatype Result<+T, +E> = Ok(value: T) | Err(error: E)

  type Byte = x: int | 0 <= x < 0x100

  type Bytes = seq<Byte>

  /** An element of a string. A Python string is any sequence of code points. */
  type CodePoint = x: int | 0 <= x < 0x110000

  type Text = seq<CodePoint>

  /** A JavaScript string is a sequence of 16-bit code units. */
  predicate IsUnits(t: Text) {
    forall i | 0 <= i < |t| :: t[i] < 0x10000
  }

  type JsString = t: Text | IsUnits(t)

  predicate IsAscii(t: Text) {
    forall i | 0 <= i < |t| :: t[i] < 0x80
  }

  /** Printable ASCII with no character that JSON escapes. */
  predicate IsPlain(t: Text) {
    forall i | 0 <= i < |t| :: 0x20 <= t[i] < 0x7F && t[i] != 34 && t[i] != 92
  }

  /** The text of a string literal made of plain characters. */
  function Literal(s: string): (t: Text)
    ensures |t| == |s| && IsPlain(t)
  {
    seq(|s|, i requires 0 <= i < |s| =>
      var c := s[i] as int;
      if 0x20 <= c < 0x7F && c != 34 && c != 92 then c else 63)
  }
}
