/** Printed JSON never has a lone surrogate, so it survives UTF-8. */
module Stringify {
  import opened Prelude
  import opened Json
  import Utf8

  lemma {:induction false} PlainThenWellFormed(t: Text, rest: Text)
    requires (forall i | 0 <= i < |t| :: t[i] < 0x80) && Utf8.WellFormed(rest)
    ensures Utf8.WellFormed(t + rest)
  {
    if t == [] {
      assert t + rest == rest;
    } else {
      PlainThenWellFormed(t[1..], rest);
      assert (t + rest)[1..] == t[1..] + rest;
    }
  }

  lemma {:induction false} QuotedCharIsAscii(c: CodePoint)
    ensures forall i | 0 <= i < |QuoteChar(Python, c)| :: QuoteChar(Python, c)[i] < 0x80
  {
  }

  lemma {:induction false} QuoteIsWellFormed(lang: Lang, s: Text, rest: Text)
    requires (lang.JavaScript? ==> IsUnits(s)) && Utf8.WellFormed(rest)
    ensures Utf8.WellFormed(QuoteTo(lang, s, rest))
  {
    if s == [] {
    } else if lang.JavaScript? && Utf8.StartsWithPair(s) {
      QuoteIsWellFormed(lang, s[2..], rest);
      var t := QuoteTo(lang, s, rest);
      assert t[2..] == QuoteTo(lang, s[2..], rest);
    } else {
      QuoteIsWellFormed(lang, s[1..], rest);
      var tail := QuoteTo(lang, s[1..], rest);
      if lang.JavaScript? && QuoteChar(lang, s[0]) == [s[0]] {
        assert ([s[0]] + tail)[1..] == tail;
      } else {
        QuotedCharIsAscii(s[0]);
        PlainThenWellFormed(QuoteChar(lang, s[0]), tail);
      }
    }
  }

  lemma {:induction false} StringIsWellFormed(lang: Lang, s: Text, rest: Text)
    requires (lang.JavaScript? ==> IsUnits(s)) && Utf8.WellFormed(rest)
    ensures Utf8.WellFormed(StringTo(lang, s, rest))
  {
    PlainThenWellFormed([34], rest);
    QuoteIsWellFormed(lang, s, [34] + rest);
    PlainThenWellFormed([34], QuoteTo(lang, s, [34] + rest));
  }

  /** Number tokens are ASCII. */
  predicate Tokens(v: JSON) {
    match v
    case Num(token) => IsAscii(token)
    case Arr(items) => ItemTokens(items)
    case Obj(fields) => FieldTokens(fields)
    case _ => true
  }

  predicate ItemTokens(x: Items) {
    x.INil? || (Tokens(x.item) && ItemTokens(x.more))
  }

  predicate FieldTokens(f: Fields) {
    f.FNil? || (Tokens(f.val) && FieldTokens(f.rest))
  }

  lemma {:induction false} FitsHasTokens(lang: Lang, v: JSON)
    ensures Fits(lang, v) ==> Tokens(v)
  {
    match v
    case Arr(items) => ItemsFitHaveTokens(lang, items);
    case Obj(fields) => FieldsFitHaveTokens(lang, fields);
    case _ =>
  }

  lemma {:induction false} ItemsFitHaveTokens(lang: Lang, x: Items)
    ensures ItemsFit(lang, x) ==> ItemTokens(x)
  {
    if x.ICons? {
      FitsHasTokens(lang, x.item);
      ItemsFitHaveTokens(lang, x.more);
    }
  }

  lemma {:induction false} FieldsFitHaveTokens(lang: Lang, f: Fields)
    ensures FieldsFit(lang, f) ==> FieldTokens(f)
  {
    if f.FCons? {
      FitsHasTokens(lang, f.val);
      FieldsFitHaveTokens(lang, f.rest);
    }
  }

  /** Whatever the strings inside, the printed text has no lone surrogate. */
  lemma {:induction false} PrintIsWellFormed(lang: Lang, v: JSON, rest: Text)
    requires Tokens(v) && Printable(lang, v) && Utf8.WellFormed(rest)
    ensures Utf8.WellFormed(PrintTo(lang, v, rest))
    decreases v
  {
    match v
    case Null => PlainThenWellFormed([110, 117, 108, 108], rest);
    case Bool(b) => PlainThenWellFormed(if b then [116, 114, 117, 101] else [102, 97, 108, 115, 101], rest);
    case Num(token) => PlainThenWellFormed(token, rest);
    case Str(s) => StringIsWellFormed(lang, s, rest);
    case Arr(items) =>
      if items.INil? {
        PlainThenWellFormed([91, 93], rest);
      } else {
        ItemsAreWellFormed(lang, items, rest);
        PlainThenWellFormed([91], ItemsTo(lang, items, rest));
      }
    case Obj(fields) =>
      if fields.FNil? {
        PlainThenWellFormed([123, 125], rest);
      } else {
        FieldsAreWellFormed(lang, fields, rest);
        PlainThenWellFormed([123], FieldsTo(lang, fields, rest));
      }
  }

  lemma {:induction false} ItemsAreWellFormed(lang: Lang, x: Items, rest: Text)
    requires x.ICons? && ItemTokens(x) && ItemsPrintable(lang, x) && Utf8.WellFormed(rest)
    ensures Utf8.WellFormed(ItemsTo(lang, x, rest))
    decreases x
  {
    if x.more.INil? {
      PlainThenWellFormed([93], rest);
      PrintIsWellFormed(lang, x.item, [93] + rest);
    } else {
      ItemsAreWellFormed(lang, x.more, rest);
      var tail := ItemsTo(lang, x.more, rest);
      PlainThenWellFormed([44], tail);
      PrintIsWellFormed(lang, x.item, [44] + tail);
    }
  }

  lemma {:induction false} FieldsAreWellFormed(lang: Lang, f: Fields, rest: Text)
    requires f.FCons? && FieldTokens(f) && FieldsPrintable(lang, f) && Utf8.WellFormed(rest)
    ensures Utf8.WellFormed(FieldsTo(lang, f, rest))
    decreases f
  {
    var after := if f.rest.FNil? then [125] + rest else [44] + FieldsTo(lang, f.rest, rest);
    if f.rest.FNil? {
      PlainThenWellFormed([125], rest);
    } else {
      FieldsAreWellFormed(lang, f.rest, rest);
      PlainThenWellFormed([44], FieldsTo(lang, f.rest, rest));
    }
    PrintIsWellFormed(lang, f.val, after);
    PlainThenWellFormed([58], PrintTo(lang, f.val, after));
    StringIsWellFormed(lang, f.key, [58] + PrintTo(lang, f.val, after));
  }

  /** Printed text is read back from its UTF-8 bytes, and distinct values have distinct bytes. */
  lemma {:induction false} BytesDecideValue(lang: Lang, v: JSON, w: JSON)
    requires Fits(lang, v) && Printable(lang, v) && Fits(lang, w) && Printable(lang, w)
    ensures Utf8.Decode(Utf8.Encode(Print(lang, v))) == Print(lang, v)
    ensures Utf8.Encode(Print(lang, v)) == Utf8.Encode(Print(lang, w)) <==> v == w
  {
    FitsHasTokens(lang, v);
    FitsHasTokens(lang, w);
    PrintIsWellFormed(lang, v, []);
    PrintIsWellFormed(lang, w, []);
    Utf8.RoundTrip(Print(lang, v));
    Utf8.RoundTrip(Print(lang, w));
    Json.RoundTrip(lang, v);
    Json.RoundTrip(lang, w);
  }
}
