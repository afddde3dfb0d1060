/** The characters of printed JSON: which are escaped and how, that nothing is wasted, and that Python's are ASCII. */
module Printed {
  import opened Prelude
  import opened Json
  import Utf8

  // --- Characters ------------------------------------------------------------------------------------

  /** The characters with an escape of two characters: backspace, tab, newline, form feed, return, quote, backslash. */
  const SHORT: set<CodePoint> := {8, 9, 10, 12, 13, 34, 92}

  /** The letter of each of them. */
  const LETTERS: map<CodePoint, CodePoint> := map[8 := 98, 9 := 116, 10 := 110, 12 := 102, 13 := 114, 34 := 34, 92 := 92]

  /** Printed as it is. */
  predicate IsRaw(lang: Lang, c: CodePoint) {
    0x20 <= c && c !in SHORT && if lang.JavaScript? then !Utf8.IsSurrogate(c) else c <= 0x7E
  }

  function CharSize(lang: Lang, c: CodePoint): (n: nat) {
    if IsRaw(lang, c) then 1 else if c in SHORT then 2 else if c < 0x10000 then 6 else 12
  }

  predicate IsLowerHexDigit(c: CodePoint) {
    48 <= c <= 57 || 97 <= c <= 102
  }

  /** The escape of one code unit, with four lower-case digits. */
  predicate IsUnitEscape(t: Text, u: CodePoint) {
    |t| == 6 && StartsWithEscape(t) && EscapedUnit(t) == u && forall i | 2 <= i < 6 :: IsLowerHexDigit(t[i])
  }

  lemma {:induction false} EscapeIs(u: CodePoint)
    requires u < 0x10000
    ensures IsUnitEscape(Escape(u), u)
  {
    EscapeReads(u, []);
    assert Escape(u) + [] == Escape(u);
  }

  /** How a character outside a surrogate pair is printed. */
  lemma {:induction false} CharIs(lang: Lang, c: CodePoint)
    requires lang.JavaScript? ==> c < 0x10000
    ensures var t := QuoteChar(lang, c);
            && |t| == CharSize(lang, c)
            && (IsRaw(lang, c) ==> t == [c])
            && (c in SHORT ==> t == [92, LETTERS[c]])
            && (|t| == 6 ==> IsUnitEscape(t, c))
            && (|t| == 12 ==> IsUnitEscape(t[..6], Utf8.HighOf(c)) && IsUnitEscape(t[6..], Utf8.LowOf(c)))
  {
    hide Escape, EscapedUnit, StartsWithEscape, Utf8.HighOf, Utf8.LowOf;
    if c < 0x10000 {
      EscapeIs(c);
    } else {
      EscapeIs(Utf8.HighOf(c));
      EscapeIs(Utf8.LowOf(c));
    }
  }

  lemma {:induction false} PlainChar(lang: Lang, c: CodePoint)
    requires 0x20 <= c < 0x7F && c != 34 && c != 92
    ensures QuoteChar(lang, c) == [c] && !Utf8.IsSurrogate(c)
  {
  }

  lemma {:induction false} QuotePlain(lang: Lang, s: Text, rest: Text)
    requires IsPlain(s)
    ensures QuoteTo(lang, s, rest) == s + rest
  {
    if s == [] {
    } else {
      QuotePlain(lang, s[1..], rest);
      PlainChar(lang, s[0]);
      assert s == [s[0]] + s[1..];
      assert [s[0]] + (s[1..] + rest) == ([s[0]] + s[1..]) + rest;
    }
  }

  // --- Sizes -----------------------------------------------------------------------------------------

  function QuotedSize(lang: Lang, s: Text): (n: nat) {
    if s == [] then 0
    else if lang.JavaScript? && Utf8.StartsWithPair(s) then 2 + QuotedSize(lang, s[2..])
    else CharSize(lang, s[0]) + QuotedSize(lang, s[1..])
  }

  /** The size of a value's tokens, and of one separator between two of them. */
  function Size(lang: Lang, v: JSON): (n: nat) {
    match v
    case Null => 4
    case Bool(b) => if b then 4 else 5
    case Num(token) => |token|
    case Str(s) => QuotedSize(lang, s) + 2
    case Arr(items) => if items.INil? then 2 else 1 + ItemsSize(lang, items)
    case Obj(fields) => if fields.FNil? then 2 else 1 + FieldsSize(lang, fields)
  }

  function ItemsSize(lang: Lang, x: Items): (n: nat) {
    if x.INil? then 0 else Size(lang, x.item) + 1 + ItemsSize(lang, x.more)
  }

  function FieldsSize(lang: Lang, f: Fields): (n: nat) {
    if f.FNil? then 0 else QuotedSize(lang, f.key) + 2 + 1 + Size(lang, f.val) + 1 + FieldsSize(lang, f.rest)
  }

  lemma {:induction false} QuoteSize(lang: Lang, s: Text, rest: Text)
    requires lang.JavaScript? ==> IsUnits(s)
    ensures |QuoteTo(lang, s, rest)| == QuotedSize(lang, s) + |rest|
  {
    hide QuoteChar, CharSize;
    if s == [] {
    } else if lang.JavaScript? && Utf8.StartsWithPair(s) {
      QuoteSize(lang, s[2..], rest);
    } else {
      CharIs(lang, s[0]);
      QuoteSize(lang, s[1..], rest);
    }
  }

  /** Printing adds no space: the text is exactly as long as its tokens and their separators. */
  lemma {:induction false} PrintSize(lang: Lang, v: JSON, rest: Text)
    requires Printable(lang, v)
    ensures |PrintTo(lang, v, rest)| == Size(lang, v) + |rest|
    decreases v
  {
    hide QuoteTo, QuotedSize;
    match v
    case Str(s) => QuoteSize(lang, s, [34] + rest);
    case Arr(items) => if items.ICons? { ItemsPrintSize(lang, items, rest); }
    case Obj(fields) => if fields.FCons? { FieldsPrintSize(lang, fields, rest); }
    case _ =>
  }

  lemma {:induction false} ItemsPrintSize(lang: Lang, x: Items, rest: Text)
    requires x.ICons? && ItemsPrintable(lang, x)
    ensures |ItemsTo(lang, x, rest)| == ItemsSize(lang, x) + |rest|
    decreases x
  {
    PrintSize(lang, x.item, if x.more.INil? then [93] + rest else [44] + ItemsTo(lang, x.more, rest));
    if x.more.ICons? {
      ItemsPrintSize(lang, x.more, rest);
    }
  }

  lemma {:induction false} FieldsPrintSize(lang: Lang, f: Fields, rest: Text)
    requires f.FCons? && FieldsPrintable(lang, f)
    ensures |FieldsTo(lang, f, rest)| == FieldsSize(lang, f) + |rest|
    decreases f
  {
    hide QuoteTo, QuotedSize;
    var after := if f.rest.FNil? then [125] + rest else [44] + FieldsTo(lang, f.rest, rest);
    PrintSize(lang, f.val, after);
    QuoteSize(lang, f.key, [34] + ([58] + PrintTo(lang, f.val, after)));
    if f.rest.FCons? {
      FieldsPrintSize(lang, f.rest, rest);
    }
  }

  // --- ensure_ascii ----------------------------------------------------------------------------------

  lemma {:induction false} QuoteIsAscii(s: Text, rest: Text)
    requires IsAscii(rest)
    ensures IsAscii(QuoteTo(Python, s, rest))
  {
    if s != [] {
      QuoteIsAscii(s[1..], rest);
      CharIs(Python, s[0]);
    }
  }

  lemma {:induction false} PythonIsAscii(v: JSON, rest: Text)
    requires Fits(Python, v) && Printable(Python, v) && IsAscii(rest)
    ensures IsAscii(PrintTo(Python, v, rest))
    decreases v
  {
    hide QuoteTo;
    match v
    case Str(s) => QuoteIsAscii(s, [34] + rest);
    case Arr(items) => if items.ICons? { ItemsAreAscii(items, rest); }
    case Obj(fields) => if fields.FCons? { FieldsAreAscii(fields, rest); }
    case _ =>
  }

  lemma {:induction false} ItemsAreAscii(x: Items, rest: Text)
    requires x.ICons? && ItemsFit(Python, x) && ItemsPrintable(Python, x) && IsAscii(rest)
    ensures IsAscii(ItemsTo(Python, x, rest))
    decreases x
  {
    if x.more.ICons? {
      ItemsAreAscii(x.more, rest);
    }
    PythonIsAscii(x.item, if x.more.INil? then [93] + rest else [44] + ItemsTo(Python, x.more, rest));
  }

  lemma {:induction false} FieldsAreAscii(f: Fields, rest: Text)
    requires f.FCons? && FieldsFit(Python, f) && FieldsPrintable(Python, f) && IsAscii(rest)
    ensures IsAscii(FieldsTo(Python, f, rest))
    decreases f
  {
    hide QuoteTo;
    if f.rest.FCons? {
      FieldsAreAscii(f.rest, rest);
    }
    var after := if f.rest.FNil? then [125] + rest else [44] + FieldsTo(Python, f.rest, rest);
    PythonIsAscii(f.val, after);
    QuoteIsAscii(f.key, [34] + ([58] + PrintTo(Python, f.val, after)));
  }

  // --- What may stand around a value -----------------------------------------------------------------

  /** Tabs, newlines, returns and spaces. */
  predicate IsWhite(t: Text) {
    forall i | 0 <= i < |t| :: t[i] in {9, 10, 13, 32}
  }

  lemma {:induction false} SkipsWhite(w: Text, t: Text)
    requires IsWhite(w)
    ensures SkipSpace(w + t) == SkipSpace(t)
  {
    if w == [] {
      assert w + t == t;
    } else {
      SkipsWhite(w[1..], t);
      assert (w + t)[1..] == w[1..] + t;
    }
  }

  lemma {:induction false} SkipsAllExactly(t: Text)
    ensures SkipSpace(t) == [] <==> IsWhite(t)
  {
    if t != [] {
      SkipsAllExactly(t[1..]);
      assert t == [t[0]] + t[1..];
    }
  }

  /** A printed value with white space before it reads back exactly when there is nothing but white space after it. */
  lemma {:induction false} SurroundedExactly(lang: Lang, before: Text, v: JSON, after: Text)
    requires Fits(lang, v) && Printable(lang, v) && IsWhite(before) && EndsNumber(after)
    ensures ParseText(lang, before + PrintTo(lang, v, after)) == if IsWhite(after) then Some(v) else None
  {
    ParseReads(lang, v, after);
    SkipsAllExactly(after);
    AfterWhite(lang, before, PrintTo(lang, v, after));
  }

  lemma {:induction false} AfterWhite(lang: Lang, w: Text, t: Text)
    requires IsWhite(w)
    ensures Parse(lang, w + t) == Parse(lang, t)
  {
    SkipsWhite(w, t);
  }
}
