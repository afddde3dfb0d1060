/**
 * The two canonical serialisations that certificates are signed over: Python's canonical_json, which sorts the
 * names of every object, and JavaScript's _canonicalJSON, which passes the sorted top-level names to
 * JSON.stringify as an allowlist that also applies to nested objects.
 */
module CanonicalJson {
  import opened Prelude
  import opened Utf8
  import opened Json

  // --- Equality of values, whatever the order of their fields ----------------------------------------

  /** The same value as a dictionary: same names, and equal values under each name, at every depth. */
  predicate Same(v: JSON, w: JSON)
    decreases v
  {
    match (v, w)
    case (Arr(x), Arr(y)) => SameItems(x, y)
    case (Obj(f), Obj(g)) => Keys(f) == Keys(g) && SameUnder(f, g)
    case (Arr(_), _) => false
    case (Obj(_), _) => false
    case _ => v == w
  }

  predicate SameItems(x: Items, y: Items)
    decreases x
  {
    match (x, y)
    case (INil, INil) => true
    case (ICons(v, xs), ICons(w, ys)) => Same(v, w) && SameItems(xs, ys)
    case _ => false
  }

  /** Every field of f is in g with an equal value. */
  predicate SameUnder(f: Fields, g: Fields)
    decreases f
  {
    f.FNil? || (var w := Get(g, f.key); w.Some? && Same(f.val, w.value) && SameUnder(f.rest, g))
  }

  /** No object repeats a field name, as no dictionary can. */
  predicate Distinct(v: JSON) {
    match v
    case Arr(items) => DistinctItems(items)
    case Obj(fields) => DistinctFields(fields)
    case _ => true
  }

  predicate DistinctItems(x: Items) {
    x.INil? || (Distinct(x.item) && DistinctItems(x.more))
  }

  predicate DistinctFields(f: Fields) {
    f.FNil? || (Distinct(f.val) && f.key !in Keys(f.rest) && DistinctFields(f.rest))
  }

  lemma {:induction false} FitsIsDistinct(lang: Lang, v: JSON)
    ensures Fits(lang, v) ==> Distinct(v)
  {
    match v
    case Arr(items) => ItemsFitAreDistinct(lang, items);
    case Obj(fields) => FieldsFitAreDistinct(lang, fields);
    case _ =>
  }

  lemma {:induction false} ItemsFitAreDistinct(lang: Lang, x: Items)
    ensures ItemsFit(lang, x) ==> DistinctItems(x)
  {
    if x.ICons? {
      FitsIsDistinct(lang, x.item);
      ItemsFitAreDistinct(lang, x.more);
    }
  }

  lemma {:induction false} FieldsFitAreDistinct(lang: Lang, f: Fields)
    ensures FieldsFit(lang, f) ==> DistinctFields(f)
  {
    if f.FCons? {
      FitsIsDistinct(lang, f.val);
      FieldsFitAreDistinct(lang, f.rest);
    }
  }

  lemma {:induction false} GotIsDistinct(f: Fields, k: Text)
    requires DistinctFields(f) && k in Keys(f)
    ensures Distinct(Get(f, k).value)
  {
    if k in Keys(f.rest) {
      GotIsDistinct(f.rest, k);
    }
  }

  lemma {:induction false} GetSame(f: Fields, g: Fields, k: Text)
    requires SameUnder(f, g) && DistinctFields(f) && k in Keys(f)
    ensures k in Keys(g) && Same(Get(f, k).value, Get(g, k).value)
  {
    if k in Keys(f.rest) {
      GetSame(f.rest, g, k);
    }
  }

  // --- The order of names ----------------------------------------------------------------------------

  /** Lexicographic order on code points in Python, on code units in JavaScript. */
  predicate Before(a: Text, b: Text) {
    b != [] && (a == [] || a[0] < b[0] || (a[0] == b[0] && Before(a[1..], b[1..])))
  }

  lemma {:induction false} BeforeTotal(a: Text, b: Text)
    ensures a == b || Before(a, b) || Before(b, a)
    ensures !(Before(a, b) && Before(b, a))
    ensures !Before(a, a)
  {
    if a != [] {
      BeforeTotal(a[1..], a[1..]);
    }
    if a != [] && b != [] {
      BeforeTotal(a[1..], b[1..]);
      if a[0] == b[0] && a[1..] == b[1..] {
        assert a == [a[0]] + a[1..] == b;
      }
    }
  }

  lemma {:induction false} BeforeTransitive(a: Text, b: Text, c: Text)
    requires Before(a, b) && Before(b, c)
    ensures Before(a, c)
  {
    if a != [] && a[0] == b[0] == c[0] {
      BeforeTransitive(a[1..], b[1..], c[1..]);
    }
  }

  predicate Sorted(f: Fields) {
    f.FNil? || ((forall k | k in Keys(f.rest) :: Before(f.key, k)) && Sorted(f.rest))
  }

  lemma {:induction false} SortedIsDetermined(f: Fields, g: Fields)
    requires Sorted(f) && Sorted(g) && Keys(f) == Keys(g)
    requires forall k | k in Keys(f) :: Get(f, k) == Get(g, k)
    ensures f == g
  {
    if f.FNil? {
    } else {
      assert f.key in Keys(f);
      assert g.FCons?;
      BeforeTotal(f.key, g.key);
      BeforeTotal(g.key, f.key);
      assert g.key in Keys(g);
      assert f.key == g.key;
      assert Keys(f.rest) == Keys(f) - {f.key} && Keys(g.rest) == Keys(g) - {f.key};
      forall k | k in Keys(f.rest)
        ensures Get(f.rest, k) == Get(g.rest, k)
      {
        assert k in Keys(f) && Get(f, k) == Get(g, k);
      }
      SortedIsDetermined(f.rest, g.rest);
      assert Get(f, f.key) == Get(g, f.key);
    }
  }

  // --- Python: canonical_json ------------------------------------------------------------------------

  function Insert(k: Text, v: JSON, f: Fields): (g: Fields)
    ensures Keys(g) == Keys(f) + {k}
  {
    if f.FNil? || Before(k, f.key) then FCons(k, v, f) else FCons(f.key, f.val, Insert(k, v, f.rest))
  }

  /** v with the fields of every object in the order of their names. */
  function Canon(v: JSON): (w: JSON) {
    match v
    case Arr(items) => Arr(CanonItems(items))
    case Obj(fields) => Obj(CanonFields(fields))
    case _ => v
  }

  function CanonItems(x: Items): (y: Items) {
    if x.INil? then INil else ICons(Canon(x.item), CanonItems(x.more))
  }

  function CanonFields(f: Fields): (g: Fields)
    ensures Keys(g) == Keys(f)
  {
    if f.FNil? then FNil else Insert(f.key, Canon(f.val), CanonFields(f.rest))
  }

  lemma {:induction false} InsertIsSorted(k: Text, v: JSON, f: Fields)
    requires Sorted(f) && k !in Keys(f)
    ensures Sorted(Insert(k, v, f))
  {
    if f.FCons? {
      if Before(k, f.key) {
        forall q | q in Keys(f)
          ensures Before(k, q)
        {
          if q != f.key { BeforeTransitive(k, f.key, q); }
        }
      } else {
        BeforeTotal(k, f.key);
        InsertIsSorted(k, v, f.rest);
      }
    }
  }

  lemma {:induction false} GetInserted(k: Text, v: JSON, f: Fields, q: Text)
    requires k !in Keys(f)
    ensures Get(Insert(k, v, f), q) == if q == k then Some(v) else Get(f, q)
  {
    if f.FCons? && !Before(k, f.key) {
      GetInserted(k, v, f.rest, q);
    }
  }

  lemma {:induction false} CanonFieldsSorted(f: Fields)
    requires DistinctFields(f)
    ensures Sorted(CanonFields(f))
  {
    if f.FCons? {
      CanonFieldsSorted(f.rest);
      InsertIsSorted(f.key, Canon(f.val), CanonFields(f.rest));
    }
  }

  lemma {:induction false} GetCanon(f: Fields, k: Text)
    requires DistinctFields(f) && k in Keys(f)
    ensures Get(CanonFields(f), k) == Some(Canon(Get(f, k).value))
  {
    GetInserted(f.key, Canon(f.val), CanonFields(f.rest), k);
    if k != f.key {
      GetCanon(f.rest, k);
    }
  }

  /** Sorting identifies exactly the values that are equal as dictionaries. */
  lemma {:induction false} CanonDecidesSame(v: JSON, w: JSON)
    requires Distinct(v) && Distinct(w)
    ensures Canon(v) == Canon(w) <==> Same(v, w)
    decreases v
  {
    match (v, w)
    case (Arr(x), Arr(y)) => CanonDecidesSameItems(x, y);
    case (Obj(f), Obj(g)) =>
      if Keys(f) == Keys(g) {
        CanonDecidesSameUnder(f, g);
        CanonFieldsSorted(f);
        CanonFieldsSorted(g);
        if SameUnder(f, g) {
          SortedIsDetermined(CanonFields(f), CanonFields(g));
        }
      }
    case _ =>
  }

  lemma {:induction false} CanonDecidesSameItems(x: Items, y: Items)
    requires DistinctItems(x) && DistinctItems(y)
    ensures CanonItems(x) == CanonItems(y) <==> SameItems(x, y)
    decreases x
  {
    if x.ICons? && y.ICons? {
      CanonDecidesSame(x.item, y.item);
      CanonDecidesSameItems(x.more, y.more);
    }
  }

  lemma {:induction false} CanonDecidesSameUnder(f: Fields, g: Fields)
    requires DistinctFields(f) && DistinctFields(g) && Keys(f) <= Keys(g)
    ensures (forall k | k in Keys(f) :: Get(CanonFields(f), k) == Get(CanonFields(g), k)) <==> SameUnder(f, g)
    decreases f
  {
    if f.FCons? {
      var k := f.key;
      assert k in Keys(f) && k in Keys(g);
      GotIsDistinct(g, k);
      CanonDecidesSame(f.val, Get(g, k).value);
      GetCanon(f, k);
      GetCanon(g, k);
      CanonDecidesSameUnder(f.rest, g);
      forall q | q in Keys(f.rest)
        ensures Get(CanonFields(f), q) == Get(CanonFields(f.rest), q)
      {
        GetInserted(k, Canon(f.val), CanonFields(f.rest), q);
      }
      assert Keys(f) == Keys(f.rest) + {k};
    }
  }

  lemma {:induction false} InsertFits(lang: Lang, k: Text, v: JSON, f: Fields)
    requires FieldsFit(lang, f) && k !in Keys(f) && StringFits(lang, k) && Fits(lang, v)
    ensures FieldsFit(lang, Insert(k, v, f))
  {
    if f.FCons? && !Before(k, f.key) {
      InsertFits(lang, k, v, f.rest);
    }
  }

  lemma {:induction false} CanonFits(lang: Lang, v: JSON)
    requires Fits(lang, v)
    ensures Fits(lang, Canon(v))
  {
    match v
    case Arr(items) => CanonItemsFit(lang, items);
    case Obj(fields) => CanonFieldsFit(lang, fields);
    case _ =>
  }

  lemma {:induction false} CanonItemsFit(lang: Lang, x: Items)
    requires ItemsFit(lang, x)
    ensures ItemsFit(lang, CanonItems(x))
  {
    if x.ICons? {
      CanonFits(lang, x.item);
      CanonItemsFit(lang, x.more);
    }
  }

  lemma {:induction false} CanonFieldsFit(lang: Lang, f: Fields)
    requires FieldsFit(lang, f)
    ensures FieldsFit(lang, CanonFields(f))
  {
    if f.FCons? {
      CanonFits(lang, f.val);
      CanonFieldsFit(lang, f.rest);
      InsertFits(lang, f.key, Canon(f.val), CanonFields(f.rest));
    }
  }

  lemma {:induction false} CanonIdempotent(v: JSON)
    requires Distinct(v)
    ensures Distinct(Canon(v)) && Canon(Canon(v)) == Canon(v)
  {
    match v
    case Arr(items) => CanonItemsIdempotent(items);
    case Obj(f) =>
      var g := CanonFields(f);
      CanonFieldsDistinct(f);
      CanonFieldsSorted(f);
      CanonFieldsSorted(g);
      forall k | k in Keys(g)
        ensures Get(CanonFields(g), k) == Get(g, k)
      {
        GetCanon(f, k);
        GetCanon(g, k);
        GotIsDistinct(f, k);
        CanonIdempotent(Get(f, k).value);
      }
      SortedIsDetermined(CanonFields(g), g);
    case _ =>
  }

  lemma {:induction false} CanonItemsIdempotent(x: Items)
    requires DistinctItems(x)
    ensures DistinctItems(CanonItems(x)) && CanonItems(CanonItems(x)) == CanonItems(x)
  {
    if x.ICons? {
      CanonIdempotent(x.item);
      CanonItemsIdempotent(x.more);
    }
  }

  lemma {:induction false} CanonFieldsDistinct(f: Fields)
    requires DistinctFields(f)
    ensures DistinctFields(CanonFields(f))
  {
    if f.FCons? {
      CanonIdempotent(f.val);
      CanonFieldsDistinct(f.rest);
      InsertDistinct(f.key, Canon(f.val), CanonFields(f.rest));
    }
  }

  lemma {:induction false} InsertDistinct(k: Text, v: JSON, f: Fields)
    requires DistinctFields(f) && k !in Keys(f) && Distinct(v)
    ensures DistinctFields(Insert(k, v, f))
  {
    if f.FCons? && !Before(k, f.key) {
      InsertDistinct(k, v, f.rest);
    }
  }

  /** canonical_json(v). */
  function Canonical(v: JSON): (t: Text) {
    PythonPrintsAll(Canon(v));
    Print(Python, Canon(v))
  }

  lemma {:induction false} PythonPrintsAll(v: JSON)
    ensures Printable(Python, v)
  {
    match v
    case Arr(items) => PythonPrintsItems(items);
    case Obj(fields) => PythonPrintsFields(fields);
    case _ =>
  }

  lemma {:induction false} PythonPrintsItems(x: Items)
    ensures ItemsPrintable(Python, x)
  {
    if x.ICons? {
      PythonPrintsAll(x.item);
      PythonPrintsItems(x.more);
    }
  }

  lemma {:induction false} PythonPrintsFields(f: Fields)
    ensures FieldsPrintable(Python, f)
  {
    if f.FCons? {
      PythonPrintsAll(f.val);
      PythonPrintsFields(f.rest);
    }
  }

  /** Reading canonical text gives back the value, up to the order of fields. */
  lemma {:induction false} CanonicalReadsBack(v: JSON)
    requires Fits(Python, v)
    ensures ParseText(Python, Canonical(v)) == Some(Canon(v))
    ensures Same(v, Canon(v))
  {
    CanonFits(Python, v);
    Json.RoundTrip(Python, Canon(v));
    FitsIsDistinct(Python, v);
    CanonIdempotent(v);
    CanonDecidesSame(v, Canon(v));
  }

  /** Two values have the same canonical text exactly when they are equal as dictionaries. */
  lemma {:induction false} CanonicalDecidesSame(v: JSON, w: JSON)
    requires Fits(Python, v) && Fits(Python, w)
    ensures Canonical(v) == Canonical(w) <==> Same(v, w)
  {
    CanonicalReadsBack(v);
    CanonicalReadsBack(w);
    FitsIsDistinct(Python, v);
    FitsIsDistinct(Python, w);
    CanonDecidesSame(v, w);
  }

  // --- The order of the printed names ----------------------------------------------------------------

  /** a comes before b where they first differ: by a smaller character there, or by ending. */
  ghost predicate ComesFirst(a: Text, b: Text) {
    exists n | 0 <= n <= |a| && n < |b| :: a[..n] == b[..n] && (n == |a| || a[n] < b[n])
  }

  lemma {:induction false} BeforeComesFirst(a: Text, b: Text)
    ensures Before(a, b) <==> ComesFirst(a, b)
  {
    if b != [] && a != [] && a[0] == b[0] {
      BeforeComesFirst(a[1..], b[1..]);
      if Before(a, b) {
        var n :| 0 <= n <= |a[1..]| && n < |b[1..]| && a[1..][..n] == b[1..][..n] && (n == |a[1..]| || a[1..][n] < b[1..][n]);
        assert a[..n + 1] == [a[0]] + a[1..][..n] && b[..n + 1] == [b[0]] + b[1..][..n];
      }
      if ComesFirst(a, b) {
        var n :| 0 <= n <= |a| && n < |b| && a[..n] == b[..n] && (n == |a| || a[n] < b[n]);
        assert n > 0;
        assert a[1..][..n - 1] == a[..n][1..] && b[1..][..n - 1] == b[..n][1..];
        assert ComesFirst(a[1..], b[1..]);
      }
    } else if b != [] {
      assert a[..0] == b[..0];
    }
  }

  /** The names of every object, at every depth, ascend. */
  ghost predicate InOrder(v: JSON) {
    match v
    case Arr(items) => ItemsInOrder(items)
    case Obj(fields) => FieldsInOrder(fields)
    case _ => true
  }

  ghost predicate ItemsInOrder(x: Items) {
    x.INil? || (InOrder(x.item) && ItemsInOrder(x.more))
  }

  ghost predicate FieldsInOrder(f: Fields) {
    f.FNil? || ((forall k | k in Keys(f.rest) :: ComesFirst(f.key, k)) && InOrder(f.val) && FieldsInOrder(f.rest))
  }

  lemma {:induction false} InsertInOrder(k: Text, v: JSON, f: Fields)
    requires FieldsInOrder(f) && k !in Keys(f) && InOrder(v)
    ensures FieldsInOrder(Insert(k, v, f))
  {
    if f.FCons? {
      BeforeTotal(k, f.key);
      if Before(k, f.key) {
        forall q | q in Keys(f)
          ensures ComesFirst(k, q)
        {
          BeforeComesFirst(f.key, q);
          BeforeComesFirst(k, q);
          if q != f.key { BeforeTransitive(k, f.key, q); }
        }
      } else {
        BeforeComesFirst(f.key, k);
        InsertInOrder(k, v, f.rest);
      }
    }
  }

  lemma {:induction false} CanonInOrder(v: JSON)
    requires Distinct(v)
    ensures InOrder(Canon(v))
  {
    match v
    case Arr(items) => CanonItemsInOrder(items);
    case Obj(fields) => CanonFieldsInOrder(fields);
    case _ =>
  }

  lemma {:induction false} CanonItemsInOrder(x: Items)
    requires DistinctItems(x)
    ensures ItemsInOrder(CanonItems(x))
  {
    if x.ICons? {
      CanonInOrder(x.item);
      CanonItemsInOrder(x.more);
    }
  }

  lemma {:induction false} CanonFieldsInOrder(f: Fields)
    requires DistinctFields(f)
    ensures FieldsInOrder(CanonFields(f))
  {
    if f.FCons? {
      CanonInOrder(f.val);
      CanonFieldsInOrder(f.rest);
      InsertInOrder(f.key, Canon(f.val), CanonFields(f.rest));
    }
  }

  /** The names printed by canonical_json ascend in every object, at every depth. */
  lemma {:induction false} CanonicalIsSorted(v: JSON)
    requires Fits(Python, v)
    ensures var r := ParseText(Python, Canonical(v)); r.Some? && InOrder(r.value) && Same(v, r.value)
  {
    CanonicalReadsBack(v);
    FitsIsDistinct(Python, v);
    CanonInOrder(v);
  }

  lemma {:induction false} SameIsSymmetric(v: JSON, w: JSON)
    requires Distinct(v) && Distinct(w) && Same(v, w)
    ensures Same(w, v)
  {
    CanonDecidesSame(v, w);
    CanonDecidesSame(w, v);
  }

  lemma {:induction false} SameIsTransitive(u: JSON, v: JSON, w: JSON)
    requires Distinct(u) && Distinct(v) && Distinct(w) && Same(u, v) && Same(v, w)
    ensures Same(u, w)
  {
    CanonDecidesSame(u, v);
    CanonDecidesSame(v, w);
    CanonDecidesSame(u, w);
  }

  // --- Python strings that spell an astral character as two surrogates -------------------------------

  /** s with each high surrogate and following low surrogate replaced by the character they make. */
  function JoinPairs(s: Text): (t: Text) {
    if s == [] then []
    else if StartsWithPair(s) then [Join(s[0], s[1])] + JoinPairs(s[2..])
    else [s[0]] + JoinPairs(s[1..])
  }

  lemma {:induction false} JoinedHasNoSplitPair(s: Text)
    ensures NoSplitPair(JoinPairs(s))
    ensures s != [] && !IsLow(s[0]) ==> JoinPairs(s) != [] && !IsLow(JoinPairs(s)[0])
    ensures s == [] ==> JoinPairs(s) == []
  {
    if s != [] {
      var rest := if StartsWithPair(s) then s[2..] else s[1..];
      JoinedHasNoSplitPair(rest);
    }
  }

  lemma {:induction false} QuotedFirst(c: CodePoint, s: Text, rest: Text)
    ensures QuoteTo(Python, [c] + s, rest) == QuoteChar(Python, c) + QuoteTo(Python, s, rest)
  {
    assert ([c] + s)[1..] == s;
  }

  lemma {:induction false} QuotedPair(hi: CodePoint, lo: CodePoint, s: Text, rest: Text)
    requires IsHigh(hi) && IsLow(lo)
    ensures QuoteTo(Python, [hi, lo] + s, rest) == QuoteTo(Python, [Join(hi, lo)] + s, rest)
  {
    hide QuoteTo, Escape;
    var tail := QuoteTo(Python, s, rest);
    assert [hi, lo] + s == [hi] + ([lo] + s);
    QuotedFirst(hi, [lo] + s, rest);
    QuotedFirst(lo, s, rest);
    QuotedFirst(Join(hi, lo), s, rest);
    assert Escape(hi) + (Escape(lo) + tail) == (Escape(hi) + Escape(lo)) + tail;
  }

  lemma {:induction false} QuotedAfter(c: CodePoint, s: Text, t: Text, rest: Text)
    requires QuoteTo(Python, s, rest) == QuoteTo(Python, t, rest)
    ensures QuoteTo(Python, [c] + s, rest) == QuoteTo(Python, [c] + t, rest)
  {
    assert ([c] + s)[1..] == s && ([c] + t)[1..] == t;
  }

  lemma {:induction false} JoiningKeepsTheText(s: Text, rest: Text)
    ensures QuoteTo(Python, JoinPairs(s), rest) == QuoteTo(Python, s, rest)
  {
    if s == [] {
    } else if StartsWithPair(s) {
      JoiningKeepsTheText(s[2..], rest);
      QuotedPair(s[0], s[1], s[2..], rest);
      QuotedAfter(Join(s[0], s[1]), JoinPairs(s[2..]), s[2..], rest);
      assert s == [s[0], s[1]] + s[2..];
    } else {
      JoiningKeepsTheText(s[1..], rest);
      QuotedAfter(s[0], JoinPairs(s[1..]), s[1..], rest);
      assert s == [s[0]] + s[1..];
    }
  }

  lemma {:induction false} JoinChangesExactlySplitPairs(s: Text)
    ensures JoinPairs(s) == s <==> NoSplitPair(s)
    ensures |JoinPairs(s)| <= |s|
  {
    if s == [] {
    } else if StartsWithPair(s) {
      JoinChangesExactlySplitPairs(s[2..]);
      assert !(0 <= 0 < |s| - 1 ==> !(IsHigh(s[0]) && IsLow(s[1])));
    } else {
      JoinChangesExactlySplitPairs(s[1..]);
      assert s == [s[0]] + s[1..];
      assert JoinPairs(s)[1..] == JoinPairs(s[1..]);
      if NoSplitPair(s[1..]) {
        forall i | 0 <= i < |s| - 1
          ensures !(IsHigh(s[i]) && IsLow(s[i + 1]))
        {
          if i > 0 { assert s[1..][i - 1] == s[i] && s[1..][i] == s[i + 1]; }
        }
      }
    }
  }

  /**
   * What json.loads reads from the text of any Python string, surrogates included: the joined string. So a
   * string survives exactly when it has no split pair, and two strings print alike exactly when they join alike.
   */
  lemma {:induction false} PythonStringExactly(s: Text, t: Text)
    ensures ParseText(Python, Print(Python, Str(s))) == Some(Str(JoinPairs(s)))
    ensures ParseText(Python, Print(Python, Str(s))) == Some(Str(s)) <==> NoSplitPair(s)
    ensures Print(Python, Str(s)) == Print(Python, Str(t)) <==> JoinPairs(s) == JoinPairs(t)
  {
    JoinedHasNoSplitPair(s);
    JoinedHasNoSplitPair(t);
    JoiningKeepsTheText(s, [34]);
    JoiningKeepsTheText(t, [34]);
    JoinChangesExactlySplitPairs(s);
    assert [34] + [] == [34];
    Json.RoundTrip(Python, Str(JoinPairs(s)));
    Json.RoundTrip(Python, Str(JoinPairs(t)));
  }
}
