/** Files of indented JSON: json.dumps(v, indent=2), and that json.loads reads the value back. */
module Indented {
  import opened Prelude
  import opened Json

  /** A new line at a nesting depth. */
  function Break(depth: nat): (t: Text)
    ensures |t| == 1 + 2 * depth && t[0] == 10 && forall i | 1 <= i < |t| :: t[i] == 32
  {
    [10] + seq(2 * depth, _ => 32)
  }

  /** The indented text of v at a nesting depth, followed by rest. */
  function PrettyTo(v: JSON, depth: nat, rest: Text): (t: Text)
    decreases v
  {
    match v
    case Null => [110, 117, 108, 108] + rest
    case Bool(b) => (if b then [116, 114, 117, 101] else [102, 97, 108, 115, 101]) + rest
    case Num(token) => token + rest
    case Str(s) => StringTo(Python, s, rest)
    case Arr(items) =>
      if items.INil? then [91, 93] + rest else [91] + (Break(depth + 1) + PrettyItemsTo(items, depth, rest))
    case Obj(fields) =>
      if fields.FNil? then [123, 125] + rest else [123] + (Break(depth + 1) + PrettyFieldsTo(fields, depth, rest))
  }

  function PrettyItemsTo(x: Items, depth: nat, rest: Text): (t: Text)
    requires x.ICons?
    decreases x
  {
    PrettyTo(x.item, depth + 1,
      if x.more.INil? then Break(depth) + ([93] + rest)
      else [44] + (Break(depth + 1) + PrettyItemsTo(x.more, depth, rest)))
  }

  function PrettyFieldsTo(f: Fields, depth: nat, rest: Text): (t: Text)
    requires f.FCons?
    decreases f
  {
    var after :=
      if f.rest.FNil? then Break(depth) + ([125] + rest)
      else [44] + (Break(depth + 1) + PrettyFieldsTo(f.rest, depth, rest));
    StringTo(Python, f.key, [58] + ([32] + PrettyTo(f.val, depth + 1, after)))
  }

  /** json.dumps(v, indent=2). */
  function Pretty(v: JSON): (t: Text) {
    PrettyTo(v, 0, [])
  }

  // --- Reading back ----------------------------------------------------------------------------------

  /** t starts with neither space nor a closing square bracket. */
  predicate StartsValue(t: Text) {
    t != [] && !Json.IsSpace(t[0]) && t[0] != 93
  }

  lemma {:induction false} SkipOver(w: Text, t: Text)
    requires (forall i | 0 <= i < |w| :: Json.IsSpace(w[i])) && t != [] && !Json.IsSpace(t[0])
    ensures SkipSpace(w + t) == t
  {
    if w == [] {
      assert w + t == t;
    } else {
      SkipOver(w[1..], t);
      assert (w + t)[1..] == w[1..] + t;
    }
  }

  lemma {:induction false} ParseAfterSpace(w: Text, t: Text)
    requires (forall i | 0 <= i < |w| :: Json.IsSpace(w[i])) && t != [] && !Json.IsSpace(t[0])
    ensures Parse(Python, w + t) == Parse(Python, t)
  {
    SkipOver(w, t);
  }

  /** An array is read from its spaced items, an object from its spaced fields. */
  lemma {:induction false} ParseArrayAfter(w: Text, body: Text, items: Items, rest: Text)
    requires (forall i | 0 <= i < |w| :: Json.IsSpace(w[i])) && StartsValue(body)
    requires ParseItems(Python, body) == Some((items, rest))
    ensures Parse(Python, [91] + (w + body)) == Some((Arr(items), rest))
  {
    assert ([91] + (w + body))[1..] == w + body;
    SkipOver(w, body);
    ParseAfterSpace(w, body);
  }

  lemma {:induction false} ParseObjectAfter(w: Text, body: Text, fields: Fields, rest: Text)
    requires (forall i | 0 <= i < |w| :: Json.IsSpace(w[i])) && Starts(body, 34)
    requires ParseFields(Python, body) == Some((fields, rest))
    ensures Parse(Python, [123] + (w + body)) == Some((Obj(fields), rest))
  {
    assert ([123] + (w + body))[1..] == w + body;
    SkipOver(w, body);
  }

  lemma {:induction false} ParseItemsNext(t: Text, v: JSON, w: Text, body: Text, more: Items, rest: Text)
    requires (forall i | 0 <= i < |w| :: Json.IsSpace(w[i])) && StartsValue(body)
    requires Parse(Python, t) == Some((v, [44] + (w + body)))
    requires ParseItems(Python, body) == Some((more, rest))
    ensures ParseItems(Python, t) == Some((ICons(v, more), rest))
  {
    assert ([44] + (w + body))[1..] == w + body;
    ParseAfterSpace(w, body);
  }

  lemma {:induction false} ParseItemsLast(t: Text, v: JSON, w: Text, rest: Text)
    requires forall i | 0 <= i < |w| :: Json.IsSpace(w[i])
    requires Parse(Python, t) == Some((v, w + ([93] + rest)))
    ensures ParseItems(Python, t) == Some((ICons(v, INil), rest))
  {
    SkipOver(w, [93] + rest);
    assert ([93] + rest)[1..] == rest;
  }

  lemma {:induction false} ParseFieldsNext(t: Text, k: Text, value: Text, v: JSON, w: Text, body: Text, more: Fields,
                                           rest: Text)
    requires (forall i | 0 <= i < |w| :: Json.IsSpace(w[i])) && Starts(body, 34)
    requires Json.Scan(Python, t) == Some((k, [58] + value)) && Parse(Python, value) == Some((v, [44] + (w + body)))
    requires ParseFields(Python, body) == Some((more, rest))
    ensures ParseFields(Python, [34] + t) == Some((FCons(k, v, more), rest))
  {
    hide Json.Parse, Json.Scan;
    assert ([34] + t)[1..] == t && ([58] + value)[1..] == value;
    assert ([44] + (w + body))[1..] == w + body;
    SkipOver(w, body);
  }

  lemma {:induction false} ParseFieldsLast(t: Text, k: Text, value: Text, v: JSON, w: Text, rest: Text)
    requires forall i | 0 <= i < |w| :: Json.IsSpace(w[i])
    requires Json.Scan(Python, t) == Some((k, [58] + value)) && Parse(Python, value) == Some((v, w + ([125] + rest)))
    ensures ParseFields(Python, [34] + t) == Some((FCons(k, v, FNil), rest))
  {
    hide Json.Parse, Json.Scan;
    assert ([34] + t)[1..] == t && ([58] + value)[1..] == value;
    SkipOver(w, [125] + rest);
    assert ([125] + rest)[1..] == rest;
  }

  lemma {:induction false} PrettyReads(v: JSON, depth: nat, rest: Text)
    requires Fits(Python, v) && EndsNumber(rest)
    ensures Parse(Python, PrettyTo(v, depth, rest)) == Some((v, rest))
    ensures StartsValue(PrettyTo(v, depth, rest))
    decreases v
  {
    hide Json.Parse, Json.ParseItems, Json.ParseFields, Json.Scan, IsNumber;
    match v
    case Null => ParseLiteralReads(Python, v, rest);
    case Bool(b) => ParseLiteralReads(Python, v, rest);
    case Num(token) => ParseNumberReads(token, rest); NumberStarts(token, rest);
    case Str(s) => ParseStringReads(Python, s, rest);
    case Arr(items) =>
      if items.INil? {
        ParseEmptyReads(Python, rest);
      } else {
        PrettyItemsRead(items, depth, rest);
        ParseArrayAfter(Break(depth + 1), PrettyItemsTo(items, depth, rest), items, rest);
      }
    case Obj(fields) =>
      if fields.FNil? {
        ParseEmptyReads(Python, rest);
      } else {
        PrettyFieldsRead(fields, depth, rest);
        ParseObjectAfter(Break(depth + 1), PrettyFieldsTo(fields, depth, rest), fields, rest);
      }
  }

  lemma {:induction false} PrettyItemsRead(x: Items, depth: nat, rest: Text)
    requires x.ICons? && ItemsFit(Python, x)
    ensures ParseItems(Python, PrettyItemsTo(x, depth, rest)) == Some((x, rest))
    ensures StartsValue(PrettyItemsTo(x, depth, rest))
    decreases x
  {
    hide Json.Parse, Json.ParseItems, Json.ParseFields, Json.Scan;
    var t := PrettyItemsTo(x, depth, rest);
    if x.more.INil? {
      PrettyReads(x.item, depth + 1, Break(depth) + ([93] + rest));
      ParseItemsLast(t, x.item, Break(depth), rest);
    } else {
      var body := PrettyItemsTo(x.more, depth, rest);
      PrettyItemsRead(x.more, depth, rest);
      PrettyReads(x.item, depth + 1, [44] + (Break(depth + 1) + body));
      ParseItemsNext(t, x.item, Break(depth + 1), body, x.more, rest);
    }
  }

  lemma {:induction false} PrettyFieldsRead(f: Fields, depth: nat, rest: Text)
    requires f.FCons? && FieldsFit(Python, f)
    ensures ParseFields(Python, PrettyFieldsTo(f, depth, rest)) == Some((f, rest))
    ensures Starts(PrettyFieldsTo(f, depth, rest), 34)
    decreases f
  {
    hide Json.Parse, Json.ParseItems, Json.ParseFields, Json.Scan;
    hide QuoteTo, Break;
    var after :=
      if f.rest.FNil? then Break(depth) + ([125] + rest)
      else [44] + (Break(depth + 1) + PrettyFieldsTo(f.rest, depth, rest));
    var text := PrettyTo(f.val, depth + 1, after);
    PrettyReads(f.val, depth + 1, after);
    ParseAfterSpace([32], text);
    ScanReads(Python, f.key, [58] + ([32] + text));
    var quoted := QuoteTo(Python, f.key, [34] + ([58] + ([32] + text)));
    if f.rest.FNil? {
      ParseFieldsLast(quoted, f.key, [32] + text, f.val, Break(depth), rest);
    } else {
      PrettyFieldsRead(f.rest, depth, rest);
      ParseFieldsNext(quoted, f.key, [32] + text, f.val, Break(depth + 1), PrettyFieldsTo(f.rest, depth, rest), f.rest,
                      rest);
    }
  }

  /** A file written with indentation reads back as the value written. */
  lemma {:induction false} RoundTrip(v: JSON)
    requires Fits(Python, v)
    ensures ParseText(Python, Pretty(v)) == Some(v)
  {
    PrettyReads(v, 0, []);
  }
}
