/**
 * JSON values, their printing and their parsing, for both languages of the repository.
 *
 * Printing is in continuation style: PrintTo(lang, v, rest) is the text of v followed by rest. The parser
 * is the inverse, reading v off the front and returning rest.
 */
module Json {
  import opened Prelude
  import opened Utf8
  import Decimal
  import Hex

  /** JavaScript: JSON.stringify and JSON.parse. Python: json.dumps(ensure_ascii=True) and json.loads. */
  datatype Lang = JavaScript | Python

  /** Object fields are kept in insertion order; a number is its decimal token. */
  datatype JSON =
    | Null
    | Bool(b: bool)
    | Num(token: Text)
    | Str(s: Text)
    | Arr(items: Items)
    | Obj(fields: Fields)

  datatype Items = INil | ICons(item: JSON, more: Items)

  datatype Fields = FNil | FCons(key: Text, val: JSON, rest: Fields)

  // --- Object lookup ---------------------------------------------------------------------------------

  function Keys(f: Fields): (ks: set<Text>)
    ensures ks == {} <==> f.FNil?
  {
    if f.FNil? then {} else {f.key} + Keys(f.rest)
  }

  /** A later field of the same name replaces an earlier one. */
  function Get(f: Fields, k: Text): (v: Option<JSON>)
    ensures v.Some? <==> k in Keys(f)
    ensures v.Some? ==> v.value < f
  {
    if f.FNil? then None
    else
      var later := Get(f.rest, k);
      if later.Some? then later else if f.key == k then Some(f.val) else None
  }

  function Remove(f: Fields, k: Text): (g: Fields)
    ensures Keys(g) == Keys(f) - {k}
  {
    if f.FNil? then FNil
    else if f.key == k then Remove(f.rest, k)
    else FCons(f.key, f.val, Remove(f.rest, k))
  }

  lemma {:induction false} GetRemoved(f: Fields, k: Text, q: Text)
    ensures Get(Remove(f, k), q) == if q == k then None else Get(f, q)
  {
    if f.FCons? {
      GetRemoved(f.rest, k, q);
    }
  }

  // --- Well-formed values ----------------------------------------------------------------------------

  /** In Python a high surrogate followed by a low one prints like the astral character they would make. */
  predicate NoSplitPair(s: Text) {
    forall i | 0 <= i < |s| - 1 :: !(IsHigh(s[i]) && IsLow(s[i + 1]))
  }

  predicate StringFits(lang: Lang, s: Text) {
    match lang
    case JavaScript => IsUnits(s)
    case Python => NoSplitPair(s)
  }

  /** Strings of the language, valid number tokens and no repeated field name, at every depth. */
  predicate Fits(lang: Lang, v: JSON) {
    match v
    case Null => true
    case Bool(_) => true
    case Num(token) => IsNumber(token)
    case Str(s) => StringFits(lang, s)
    case Arr(items) => ItemsFit(lang, items)
    case Obj(fields) => FieldsFit(lang, fields)
  }

  predicate ItemsFit(lang: Lang, x: Items) {
    x.INil? || (Fits(lang, x.item) && ItemsFit(lang, x.more))
  }

  predicate FieldsFit(lang: Lang, f: Fields) {
    f.FNil? || (StringFits(lang, f.key) && Fits(lang, f.val) && f.key !in Keys(f.rest) && FieldsFit(lang, f.rest))
  }

  // --- Number tokens (section 6 of RFC 8259) ---------------------------------------------------------

  predicate IsNumberChar(c: CodePoint) {
    Decimal.IsDigit(c) || c in {43, 45, 46, 69, 101}
  }

  function DigitRun(t: Text): (n: nat)
    ensures n <= |t|
    ensures Decimal.AllDigits(t[..n])
    ensures n < |t| ==> !Decimal.IsDigit(t[n])
  {
    if t == [] || !Decimal.IsDigit(t[0]) then 0 else 1 + DigitRun(t[1..])
  }

  predicate IsExponent(t: Text) {
    && |t| >= 2
    && t[0] in {69, 101}
    && var u := if t[1] in {43, 45} then t[2..] else t[1..];
    u != [] && DigitRun(u) == |u|
  }

  predicate AfterInteger(t: Text) {
    || t == []
    || (t[0] == 46 && var n := DigitRun(t[1..]); n > 0 && (t[1 + n..] == [] || IsExponent(t[1 + n..])))
    || IsExponent(t)
  }

  predicate IsNumber(token: Text) {
    && (forall i | 0 <= i < |token| :: IsNumberChar(token[i]))
    && var u := if token != [] && token[0] == 45 then token[1..] else token;
    && u != []
    && Decimal.IsDigit(u[0])
    && AfterInteger(if u[0] == 48 then u[1..] else u[DigitRun(u)..])
  }

  function NumberRun(t: Text): (n: nat)
    ensures n <= |t|
  {
    if t == [] || !IsNumberChar(t[0]) then 0 else 1 + NumberRun(t[1..])
  }

  lemma {:induction false} DigitRunOfDigits(t: Text)
    requires Decimal.AllDigits(t)
    ensures DigitRun(t) == |t|
  {
    if t != [] {
      DigitRunOfDigits(t[1..]);
    }
  }

  lemma {:induction false} IntegerIsNumber(n: int)
    ensures IsNumber(Decimal.OfInt(n))
  {
    var d := Decimal.OfNat(if n < 0 then -n else n);
    DigitRunOfDigits(d);
    if n < 0 {
      assert Decimal.OfInt(n)[1..] == d;
    }
  }

  // --- Strings ---------------------------------------------------------------------------------------

  /** The escape for one code unit: backslash, u and four lower-case hex digits. */
  function Escape(u: CodePoint): (t: Text)
    requires u < 0x10000
    ensures |t| == 6
  {
    [92, 117, Hex.Digit(u / 0x1000), Hex.Digit(u / 0x100 % 0x10), Hex.Digit(u / 0x10 % 0x10), Hex.Digit(u % 0x10)]
  }

  /** The letter of a two-character escape, or 0. */
  function ShortEscape(c: CodePoint): (e: CodePoint)
    ensures e < 0x80
  {
    match c
    case 34 => 34
    case 92 => 92
    case 8 => 98
    case 12 => 102
    case 10 => 110
    case 13 => 114
    case 9 => 116
    case _ => 0
  }

  /** How one character outside a surrogate pair is printed. */
  function QuoteChar(lang: Lang, c: CodePoint): (t: Text)
    requires lang.JavaScript? ==> c < 0x10000
    ensures 1 <= |t| <= 12
  {
    if ShortEscape(c) != 0 then [92, ShortEscape(c)]
    else if c < 0x20 then Escape(c)
    else if lang.JavaScript? then if IsSurrogate(c) then Escape(c) else [c]
    else if c <= 0x7E then [c]
    else if c < 0x10000 then Escape(c)
    else Escape(HighOf(c)) + Escape(LowOf(c))
  }

  /** The characters of s inside quotes, followed by rest. */
  function QuoteTo(lang: Lang, s: Text, rest: Text): (t: Text)
    requires lang.JavaScript? ==> IsUnits(s)
    ensures |t| >= |rest|
  {
    if s == [] then rest
    else if lang.JavaScript? && StartsWithPair(s) then [s[0], s[1]] + QuoteTo(lang, s[2..], rest)
    else QuoteChar(lang, s[0]) + QuoteTo(lang, s[1..], rest)
  }

  function StringTo(lang: Lang, s: Text, rest: Text): (t: Text)
    requires lang.JavaScript? ==> IsUnits(s)
    ensures |t| > |rest|
  {
    [34] + QuoteTo(lang, s, [34] + rest)
  }

  /** Whether t starts with a complete escape of a code unit. */
  predicate StartsWithEscape(t: Text) {
    |t| >= 6 && t[0] == 92 && t[1] == 117 && forall i | 2 <= i < 6 :: Hex.Value(t[i]) < 16
  }

  function EscapedUnit(t: Text): (u: CodePoint)
    requires StartsWithEscape(t)
    ensures u < 0x10000
  {
    Hex.Value(t[2]) * 0x1000 + Hex.Value(t[3]) * 0x100 + Hex.Value(t[4]) * 0x10 + Hex.Value(t[5])
  }

  /** The character of a two-character escape, if the letter names one. */
  function Unescape(e: CodePoint): (c: Option<CodePoint>) {
    match e
    case 34 => Some(34)
    case 92 => Some(92)
    case 47 => Some(47)
    case 98 => Some(8)
    case 102 => Some(12)
    case 110 => Some(10)
    case 114 => Some(13)
    case 116 => Some(9)
    case _ => None
  }

  /** One character of a quoted string and how much text it takes; Python joins an escaped pair. */
  function ScanChar(lang: Lang, t: Text): (r: Option<(CodePoint, nat)>)
    requires t != []
    ensures r.Some? ==> 1 <= r.value.1 <= |t|
  {
    if t[0] < 0x20 || t[0] == 34 then None
    else if t[0] != 92 then Some((t[0], 1))
    else if StartsWithEscape(t) then
      var u := EscapedUnit(t);
      if lang.Python? && IsHigh(u) && StartsWithEscape(t[6..]) && IsLow(EscapedUnit(t[6..])) then
        Some((Join(u, EscapedUnit(t[6..])), 12))
      else Some((u, 6))
    else if |t| >= 2 && Unescape(t[1]).Some? then Some((Unescape(t[1]).value, 2))
    else None
  }

  /** The string up to the closing quote, and the text after it. */
  function Scan(lang: Lang, t: Text): (r: Option<(Text, Text)>)
    ensures r.Some? ==> |r.value.1| < |t|
  {
    if t == [] then None
    else if t[0] == 34 then Some(([], t[1..]))
    else match ScanChar(lang, t)
      case None => None
      case Some((c, n)) =>
        match Scan(lang, t[n..])
        case None => None
        case Some((s, rest)) => Some(([c] + s, rest))
  }

  // --- Printing --------------------------------------------------------------------------------------

  /** The strings of v can be printed by lang at all. */
  predicate Printable(lang: Lang, v: JSON) {
    match v
    case Str(s) => lang.JavaScript? ==> IsUnits(s)
    case Arr(items) => ItemsPrintable(lang, items)
    case Obj(fields) => FieldsPrintable(lang, fields)
    case _ => true
  }

  predicate ItemsPrintable(lang: Lang, x: Items) {
    x.INil? || (Printable(lang, x.item) && ItemsPrintable(lang, x.more))
  }

  predicate FieldsPrintable(lang: Lang, f: Fields) {
    f.FNil? || ((lang.JavaScript? ==> IsUnits(f.key)) && Printable(lang, f.val) && FieldsPrintable(lang, f.rest))
  }

  lemma {:induction false} FitsIsPrintable(lang: Lang, v: JSON)
    ensures Fits(lang, v) ==> Printable(lang, v)
  {
    match v
    case Arr(items) => ItemsFitArePrintable(lang, items);
    case Obj(fields) => FieldsFitArePrintable(lang, fields);
    case _ =>
  }

  lemma {:induction false} ItemsFitArePrintable(lang: Lang, x: Items)
    ensures ItemsFit(lang, x) ==> ItemsPrintable(lang, x)
  {
    if x.ICons? {
      FitsIsPrintable(lang, x.item);
      ItemsFitArePrintable(lang, x.more);
    }
  }

  lemma {:induction false} FieldsFitArePrintable(lang: Lang, f: Fields)
    ensures FieldsFit(lang, f) ==> FieldsPrintable(lang, f)
  {
    if f.FCons? {
      FitsIsPrintable(lang, f.val);
      FieldsFitArePrintable(lang, f.rest);
    }
  }

  /** The compact text of v, followed by rest. */
  function PrintTo(lang: Lang, v: JSON, rest: Text): (t: Text)
    requires Printable(lang, v)
    decreases v
  {
    match v
    case Null => [110, 117, 108, 108] + rest
    case Bool(b) => (if b then [116, 114, 117, 101] else [102, 97, 108, 115, 101]) + rest
    case Num(token) => token + rest
    case Str(s) => StringTo(lang, s, rest)
    case Arr(items) => if items.INil? then [91, 93] + rest else [91] + ItemsTo(lang, items, rest)
    case Obj(fields) => if fields.FNil? then [123, 125] + rest else [123] + FieldsTo(lang, fields, rest)
  }

  function ItemsTo(lang: Lang, x: Items, rest: Text): (t: Text)
    requires x.ICons? && ItemsPrintable(lang, x)
    decreases x
  {
    PrintTo(lang, x.item, if x.more.INil? then [93] + rest else [44] + ItemsTo(lang, x.more, rest))
  }

  function FieldsTo(lang: Lang, f: Fields, rest: Text): (t: Text)
    requires f.FCons? && FieldsPrintable(lang, f)
    decreases f
  {
    var after := if f.rest.FNil? then [125] + rest else [44] + FieldsTo(lang, f.rest, rest);
    StringTo(lang, f.key, [58] + PrintTo(lang, f.val, after))
  }

  /** JSON.stringify(v), or json.dumps(v, separators=(",", ":"), ensure_ascii=True). */
  function Print(lang: Lang, v: JSON): (t: Text)
    requires Printable(lang, v)
  {
    PrintTo(lang, v, [])
  }

  // --- Parsing ---------------------------------------------------------------------------------------

  predicate IsSpace(c: CodePoint) { c in {9, 10, 13, 32} }

  function SkipSpace(t: Text): (u: Text)
    ensures |u| <= |t|
  {
    if t != [] && IsSpace(t[0]) then SkipSpace(t[1..]) else t
  }

  predicate Starts(t: Text, c: CodePoint) {
    t != [] && t[0] == c
  }

  function ParseNumber(t: Text): (r: Option<(JSON, Text)>)
    ensures r.Some? ==> |r.value.1| < |t|
  {
    var n := NumberRun(t);
    if n > 0 && IsNumber(t[..n]) then Some((Num(t[..n]), t[n..])) else None
  }

  /** The value at the front of t, and the text after it. */
  function Parse(lang: Lang, t: Text): (r: Option<(JSON, Text)>)
    ensures r.Some? ==> |r.value.1| < |t|
    decreases |t|, 1
  {
    var u := SkipSpace(t);
    if u == [] then None
    else if u[0] == 34 then
      match Scan(lang, u[1..])
      case None => None
      case Some((s, rest)) => Some((Str(s), rest))
    else if u[0] == 123 then
      var w := SkipSpace(u[1..]);
      if Starts(w, 125) then Some((Obj(FNil), w[1..]))
      else
        match ParseFields(lang, w)
        case None => None
        case Some((fields, rest)) => Some((Obj(fields), rest))
    else if u[0] == 91 then
      var w := SkipSpace(u[1..]);
      if Starts(w, 93) then Some((Arr(INil), w[1..]))
      else
        match ParseItems(lang, u[1..])
        case None => None
        case Some((items, rest)) => Some((Arr(items), rest))
    else if [110, 117, 108, 108] <= u then Some((Null, u[4..]))
    else if [116, 114, 117, 101] <= u then Some((Bool(true), u[4..]))
    else if [102, 97, 108, 115, 101] <= u then Some((Bool(false), u[5..]))
    else ParseNumber(u)
  }

  /** Array items up to and including the closing bracket. */
  function ParseItems(lang: Lang, t: Text): (r: Option<(Items, Text)>)
    ensures r.Some? ==> |r.value.1| < |t|
    decreases |t|, 2
  {
    match Parse(lang, t)
    case None => None
    case Some((v, after)) =>
      var u := SkipSpace(after);
      if Starts(u, 93) then Some((ICons(v, INil), u[1..]))
      else if Starts(u, 44) then
        match ParseItems(lang, u[1..])
        case None => None
        case Some((more, rest)) => Some((ICons(v, more), rest))
      else None
  }

  /** Object fields up to and including the closing brace; t starts at a field name. */
  function ParseFields(lang: Lang, t: Text): (r: Option<(Fields, Text)>)
    ensures r.Some? ==> |r.value.1| < |t|
    decreases |t|, 2
  {
    if !Starts(t, 34) then None
    else match Scan(lang, t[1..])
      case None => None
      case Some((k, afterKey)) =>
        var colon := SkipSpace(afterKey);
        if !Starts(colon, 58) then None
        else match Parse(lang, colon[1..])
          case None => None
          case Some((v, after)) =>
            var u := SkipSpace(after);
            if Starts(u, 125) then Some((FCons(k, v, FNil), u[1..]))
            else if Starts(u, 44) then
              match ParseFields(lang, SkipSpace(u[1..]))
              case None => None
              case Some((more, rest)) => Some((FCons(k, v, more), rest))
            else None
  }

  /** JSON.parse(t) or json.loads(t): the whole text is one value and spaces. */
  function ParseText(lang: Lang, t: Text): (v: Option<JSON>) {
    match Parse(lang, t)
    case None => None
    case Some((v, rest)) => if SkipSpace(rest) == [] then Some(v) else None
  }

  // --- Parsing inverts printing ----------------------------------------------------------------------

  lemma {:induction false} EscapeReads(u: CodePoint, rest: Text)
    requires u < 0x10000
    ensures StartsWithEscape(Escape(u) + rest)
    ensures EscapedUnit(Escape(u) + rest) == u
    ensures (Escape(u) + rest)[6..] == rest
  {
    var a := u / 0x10;
    var b := a / 0x10;
    assert a % 0x10 == u / 0x10 % 0x10 && b == u / 0x100 && b % 0x10 == u / 0x100 % 0x10 && b / 0x10 == u / 0x1000;
    var t := Escape(u) + rest;
    assert t[2] == Hex.Digit(b / 0x10) && t[3] == Hex.Digit(b % 0x10) && t[4] == Hex.Digit(a % 0x10)
        && t[5] == Hex.Digit(u % 0x10);
  }

  /** The text after a lone high surrogate never reads as the escape of a low one. */
  lemma {:induction false} NoLowEscapeAhead(s: Text, rest: Text)
    requires s != [] ==> !IsLow(s[0])
    ensures var t := QuoteTo(Python, s, [34] + rest); StartsWithEscape(t) ==> !IsLow(EscapedUnit(t))
  {
    if s != [] {
      NotALowEscape(s[0], QuoteTo(Python, s[1..], [34] + rest));
    }
  }

  lemma {:induction false} NotALowEscape(c: CodePoint, tail: Text)
    requires !IsLow(c)
    ensures var t := QuoteChar(Python, c) + tail; StartsWithEscape(t) ==> !IsLow(EscapedUnit(t))
  {
    hide Escape, EscapedUnit;
    if ShortEscape(c) != 0 {
      assert (QuoteChar(Python, c) + tail)[1] == ShortEscape(c);
    } else if c < 0x20 || 0x7E < c < 0x10000 {
      EscapeReads(c, tail);
    } else if c >= 0x10000 {
      assert QuoteChar(Python, c) + tail == Escape(HighOf(c)) + (Escape(LowOf(c)) + tail);
      EscapeReads(HighOf(c), Escape(LowOf(c)) + tail);
    } else {
      assert (QuoteChar(Python, c) + tail)[0] == c;
    }
  }

  lemma {:induction false} ShortEscapeReads(lang: Lang, c: CodePoint, tail: Text)
    requires ShortEscape(c) != 0
    ensures ScanChar(lang, [92, ShortEscape(c)] + tail) == Some((c, 2))
  {
    var t := [92, ShortEscape(c)] + tail;
    assert t[0] == 92 && t[1] == ShortEscape(c);
  }

  lemma {:induction false} ScanCharReads(lang: Lang, c: CodePoint, tail: Text)
    requires lang.JavaScript? ==> c < 0x10000
    requires lang.Python? && IsHigh(c) && StartsWithEscape(tail) ==> !IsLow(EscapedUnit(tail))
    ensures ScanChar(lang, QuoteChar(lang, c) + tail) == Some((c, |QuoteChar(lang, c)|))
  {
    hide Escape, EscapedUnit;
    var q := QuoteChar(lang, c);
    if ShortEscape(c) != 0 {
      hide StartsWithEscape;
      ShortEscapeReads(lang, c, tail);
    } else if q == [c] {
      assert (q + tail)[0] == c;
    } else if c < 0x10000 {
      EscapeReads(c, tail);
    } else {
      var low := Escape(LowOf(c)) + tail;
      assert q + tail == Escape(HighOf(c)) + low;
      EscapeReads(HighOf(c), low);
      EscapeReads(LowOf(c), tail);
    }
  }

  lemma {:induction false} QuoteIsNoQuotationMark(lang: Lang, c: CodePoint)
    requires lang.JavaScript? ==> c < 0x10000
    ensures QuoteChar(lang, c)[0] != 34
  {
  }

  lemma {:induction false} ScanStep(lang: Lang, c: CodePoint, tail: Text, more: Text, rest: Text)
    requires lang.JavaScript? ==> c < 0x10000
    requires lang.Python? && IsHigh(c) && StartsWithEscape(tail) ==> !IsLow(EscapedUnit(tail))
    requires Scan(lang, tail) == Some((more, rest))
    ensures Scan(lang, QuoteChar(lang, c) + tail) == Some(([c] + more, rest))
  {
    hide QuoteChar, ScanChar, EscapedUnit, StartsWithEscape;
    var q := QuoteChar(lang, c);
    QuoteIsNoQuotationMark(lang, c);
    ScanCharReads(lang, c, tail);
    assert (q + tail)[|q|..] == tail && (q + tail)[0] == q[0];
  }

  lemma {:induction false} ScanReads(lang: Lang, s: Text, rest: Text)
    requires StringFits(lang, s)
    ensures Scan(lang, QuoteTo(lang, s, [34] + rest)) == Some((s, rest))
  {
    var t := QuoteTo(lang, s, [34] + rest);
    if s == [] {
      assert t[1..] == rest;
    } else if lang.JavaScript? && StartsWithPair(s) {
      var tail := QuoteTo(lang, s[2..], [34] + rest);
      ScanReads(lang, s[2..], rest);
      assert t[1..] == [s[1]] + tail && t[1..][1..] == tail;
      assert s == [s[0]] + ([s[1]] + s[2..]);
    } else {
      hide ScanChar, EscapedUnit, StartsWithEscape;
      var tail := QuoteTo(lang, s[1..], [34] + rest);
      ScanReads(lang, s[1..], rest);
      if lang.Python? && IsHigh(s[0]) {
        NoLowEscapeAhead(s[1..], rest);
      }
      ScanStep(lang, s[0], tail, s[1..], rest);
      assert s == [s[0]] + s[1..];
    }
  }

  /** rest cannot be mistaken for more of a number. */
  predicate EndsNumber(rest: Text) {
    rest == [] || !IsNumberChar(rest[0])
  }

  lemma {:induction false} NumberRunOf(token: Text, rest: Text)
    requires (forall i | 0 <= i < |token| :: IsNumberChar(token[i])) && EndsNumber(rest)
    ensures NumberRun(token + rest) == |token|
  {
    if token != [] {
      assert (token + rest)[1..] == token[1..] + rest;
      NumberRunOf(token[1..], rest);
    } else {
      assert token + rest == rest;
    }
  }

  lemma {:induction false} ParseNumberReads(token: Text, rest: Text)
    requires IsNumber(token) && EndsNumber(rest)
    ensures Parse(Python, token + rest) == Some((Num(token), rest))
    ensures Parse(JavaScript, token + rest) == Some((Num(token), rest))
  {
    hide AfterInteger, DigitRun, NumberRun, IsExponent;
    NumberRunOf(token, rest);
    var t := token + rest;
    assert t[..|token|] == token && t[|token|..] == rest;
    assert t[0] == token[0];
  }

  lemma {:induction false} ParseLiteralReads(lang: Lang, v: JSON, rest: Text)
    requires v.Null? || v.Bool?
    ensures Parse(lang, PrintTo(lang, v, rest)) == Some((v, rest))
  {
    var t := PrintTo(lang, v, rest);
    if v.Null? {
      assert [110, 117, 108, 108] <= t && t[4..] == rest;
    } else if v.b {
      assert [116, 114, 117, 101] <= t && t[4..] == rest;
    } else {
      assert [102, 97, 108, 115, 101] <= t && t[5..] == rest;
    }
  }

  lemma {:induction false} ParseStringReads(lang: Lang, s: Text, rest: Text)
    requires StringFits(lang, s)
    ensures Parse(lang, StringTo(lang, s, rest)) == Some((Str(s), rest))
  {
    ScanReads(lang, s, rest);
    assert StringTo(lang, s, rest)[1..] == QuoteTo(lang, s, [34] + rest);
  }

  lemma {:induction false} ParseArrayOf(lang: Lang, body: Text, items: Items, rest: Text)
    requires body != [] && !IsSpace(body[0]) && body[0] != 93
    requires ParseItems(lang, body) == Some((items, rest))
    ensures Parse(lang, [91] + body) == Some((Arr(items), rest))
  {
    assert ([91] + body)[1..] == body;
  }

  lemma {:induction false} ParseObjectOf(lang: Lang, body: Text, fields: Fields, rest: Text)
    requires Starts(body, 34)
    requires ParseFields(lang, body) == Some((fields, rest))
    ensures Parse(lang, [123] + body) == Some((Obj(fields), rest))
  {
    assert ([123] + body)[1..] == body;
  }

  lemma {:induction false} ParseEmptyReads(lang: Lang, rest: Text)
    ensures Parse(lang, [91, 93] + rest) == Some((Arr(INil), rest))
    ensures Parse(lang, [123, 125] + rest) == Some((Obj(FNil), rest))
  {
    assert ([91, 93] + rest)[1..] == [93] + rest && ([93] + rest)[1..] == rest;
    assert ([123, 125] + rest)[1..] == [125] + rest && ([125] + rest)[1..] == rest;
  }

  /** How ParseFields continues once the name, the value and the text after it are known. */
  lemma {:induction false} ParseFieldOf(lang: Lang, t: Text, k: Text, value: Text, v: JSON, after: Text)
    requires Scan(lang, t) == Some((k, [58] + value))
    requires Parse(lang, value) == Some((v, after))
    ensures Starts(after, 125) ==> ParseFields(lang, [34] + t) == Some((FCons(k, v, FNil), after[1..]))
    ensures forall more, rest |
              Starts(after, 44) && Starts(after[1..], 34) && ParseFields(lang, after[1..]) == Some((more, rest))
              :: ParseFields(lang, [34] + t) == Some((FCons(k, v, more), rest))
  {
    hide Parse, Scan;
    assert ([34] + t)[1..] == t && ([58] + value)[1..] == value;
  }

  lemma {:induction false} NumberStarts(token: Text, rest: Text)
    requires IsNumber(token)
    ensures var t := token + rest; t != [] && !IsSpace(t[0]) && t[0] != 93
  {
    assert (token + rest)[0] == token[0];
  }

  lemma {:induction false} ParseReads(lang: Lang, v: JSON, rest: Text)
    requires Fits(lang, v) && Printable(lang, v) && EndsNumber(rest)
    ensures Parse(lang, PrintTo(lang, v, rest)) == Some((v, rest))
    ensures var t := PrintTo(lang, v, rest); t != [] && !IsSpace(t[0]) && t[0] != 93
    decreases v
  {
    hide Parse, ParseItems, ParseFields, Scan, IsNumber;
    match v
    case Null => ParseLiteralReads(lang, v, rest);
    case Bool(b) => ParseLiteralReads(lang, v, rest);
    case Num(token) => ParseNumberReads(token, rest); NumberStarts(token, rest);
    case Str(s) => ParseStringReads(lang, s, rest);
    case Arr(items) =>
      if items.INil? {
        ParseEmptyReads(lang, rest);
      } else {
        ParseItemsReads(lang, items, rest);
        ParseArrayOf(lang, ItemsTo(lang, items, rest), items, rest);
      }
    case Obj(fields) =>
      if fields.FNil? {
        ParseEmptyReads(lang, rest);
      } else {
        ParseFieldsReads(lang, fields, rest);
        ParseObjectOf(lang, FieldsTo(lang, fields, rest), fields, rest);
      }
  }

  lemma {:induction false} ParseItemsReads(lang: Lang, x: Items, rest: Text)
    requires x.ICons? && ItemsFit(lang, x) && ItemsPrintable(lang, x)
    ensures ParseItems(lang, ItemsTo(lang, x, rest)) == Some((x, rest))
    ensures var t := ItemsTo(lang, x, rest); t != [] && !IsSpace(t[0]) && t[0] != 93
    decreases x
  {
    if x.more.INil? {
      ParseReads(lang, x.item, [93] + rest);
      assert ([93] + rest)[1..] == rest;
    } else {
      var tail := ItemsTo(lang, x.more, rest);
      ParseItemsReads(lang, x.more, rest);
      ParseReads(lang, x.item, [44] + tail);
      assert ([44] + tail)[1..] == tail;
    }
  }

  lemma {:induction false} ParseFieldsReads(lang: Lang, f: Fields, rest: Text)
    requires f.FCons? && FieldsFit(lang, f) && FieldsPrintable(lang, f)
    ensures ParseFields(lang, FieldsTo(lang, f, rest)) == Some((f, rest))
    ensures Starts(FieldsTo(lang, f, rest), 34)
    decreases f
  {
    var after := if f.rest.FNil? then [125] + rest else [44] + FieldsTo(lang, f.rest, rest);
    var colon := [58] + PrintTo(lang, f.val, after);
    if f.rest.FNil? {
      assert after[1..] == rest;
    } else {
      ParseFieldsReads(lang, f.rest, rest);
      assert after[1..] == FieldsTo(lang, f.rest, rest);
    }
    ParseReads(lang, f.val, after);
    ScanReads(lang, f.key, colon);
    ParseFieldOf(lang, QuoteTo(lang, f.key, [34] + colon), f.key, PrintTo(lang, f.val, after), f.val, after);
  }

  /** Reading back what was printed gives the same value, field order included. */
  lemma {:induction false} RoundTrip(lang: Lang, v: JSON)
    requires Fits(lang, v)
    ensures Printable(lang, v)
    ensures ParseText(lang, Print(lang, v)) == Some(v)
  {
    FitsIsPrintable(lang, v);
    ParseReads(lang, v, []);
  }
}
