/**
 * JavaScript's _canonicalJSON(obj) = JSON.stringify(obj, Object.keys(obj).sort()). The sorted names of the
 * outermost object act as an allowlist, and as the field order, of every object inside it.
 */
module JsCanonical {
  import opened Prelude
  import opened Json
  import opened CanonicalJson

  // --- Sorted lists of names -------------------------------------------------------------------------

  function Elements(ks: seq<Text>): (s: set<Text>)
    ensures forall i | 0 <= i < |ks| :: ks[i] in s
    ensures s == {} <==> ks == []
  {
    if ks == [] then {} else {ks[0]} + Elements(ks[1..])
  }

  predicate Ascending(ks: seq<Text>) {
    ks == [] || ((forall k | k in Elements(ks[1..]) :: Before(ks[0], k)) && Ascending(ks[1..]))
  }

  function InsertName(k: Text, ks: seq<Text>): (r: seq<Text>)
    ensures Elements(r) == Elements(ks) + {k}
  {
    if ks == [] then [k]
    else if k == ks[0] then ks
    else if Before(k, ks[0]) then assert ([k] + ks)[1..] == ks; [k] + ks
    else
      var more := InsertName(k, ks[1..]);
      assert ([ks[0]] + more)[1..] == more;
      [ks[0]] + more
  }

  /** Object.keys(f).sort(). */
  function SortedNames(f: Fields): (ks: seq<Text>)
    ensures Elements(ks) == Keys(f)
  {
    if f.FNil? then [] else InsertName(f.key, SortedNames(f.rest))
  }

  lemma {:induction false} InsertNameAscends(k: Text, ks: seq<Text>)
    requires Ascending(ks)
    ensures Ascending(InsertName(k, ks))
  {
    if ks != [] && k != ks[0] {
      if Before(k, ks[0]) {
        assert ([k] + ks)[1..] == ks;
        forall q | q in Elements(ks)
          ensures Before(k, q)
        {
          if q != ks[0] { BeforeTransitive(k, ks[0], q); }
        }
      } else {
        BeforeTotal(k, ks[0]);
        InsertNameAscends(k, ks[1..]);
        var more := InsertName(k, ks[1..]);
        assert ([ks[0]] + more)[1..] == more;
      }
    }
  }

  lemma {:induction false} NamesAscend(f: Fields)
    ensures Ascending(SortedNames(f))
  {
    if f.FCons? {
      NamesAscend(f.rest);
      InsertNameAscends(f.key, SortedNames(f.rest));
    }
  }

  lemma {:induction false} AscendingIsDetermined(a: seq<Text>, b: seq<Text>)
    requires Ascending(a) && Ascending(b) && Elements(a) == Elements(b)
    ensures a == b
  {
    if a != [] && b != [] {
      BeforeTotal(a[0], b[0]);
      BeforeTotal(b[0], a[0]);
      assert a[0] in Elements(b) && b[0] in Elements(a);
      assert a[0] == b[0];
      assert Elements(a[1..]) == Elements(a) - {a[0]} && Elements(b[1..]) == Elements(b) - {b[0]};
      AscendingIsDetermined(a[1..], b[1..]);
      assert a == [a[0]] + a[1..] && b == [b[0]] + b[1..];
    }
  }

  // --- JSON.stringify with a property list -----------------------------------------------------------

  /** What remains of v when only the allowed names are printed. */
  function Project(v: JSON, allow: seq<Text>): (w: JSON)
    decreases v
  {
    match v
    case Arr(items) => Arr(ProjectItems(items, allow))
    case Obj(fields) => Obj(Pick(fields, allow, allow))
    case _ => v
  }

  function ProjectItems(x: Items, allow: seq<Text>): (y: Items)
    decreases x
  {
    if x.INil? then INil else ICons(Project(x.item, allow), ProjectItems(x.more, allow))
  }

  /** The fields of f named in todo, in that order. */
  function Pick(f: Fields, todo: seq<Text>, allow: seq<Text>): (g: Fields)
    ensures Keys(g) == Keys(f) * Elements(todo)
    decreases f, |todo|
  {
    if todo == [] then FNil
    else if Get(f, todo[0]).None? then Pick(f, todo[1..], allow)
    else FCons(todo[0], Project(Get(f, todo[0]).value, allow), Pick(f, todo[1..], allow))
  }

  /** Every name used inside v is one of allow. */
  predicate NamesWithin(v: JSON, allow: set<Text>) {
    match v
    case Arr(items) => ItemNamesWithin(items, allow)
    case Obj(fields) => FieldNamesWithin(fields, allow)
    case _ => true
  }

  predicate ItemNamesWithin(x: Items, allow: set<Text>) {
    x.INil? || (NamesWithin(x.item, allow) && ItemNamesWithin(x.more, allow))
  }

  predicate FieldNamesWithin(f: Fields, allow: set<Text>) {
    f.FNil? || (f.key in allow && NamesWithin(f.val, allow) && FieldNamesWithin(f.rest, allow))
  }

  lemma {:induction false} GetPicked(f: Fields, todo: seq<Text>, allow: seq<Text>, k: Text)
    requires k in Keys(f) && k in Elements(todo)
    ensures Get(Pick(f, todo, allow), k) == Some(Project(Get(f, k).value, allow))
  {
    if k in Elements(todo[1..]) {
      GetPicked(f, todo[1..], allow, k);
    }
  }

  lemma {:induction false} GotNamesWithin(f: Fields, k: Text, allow: set<Text>)
    requires FieldNamesWithin(f, allow) && k in Keys(f)
    ensures k in allow && NamesWithin(Get(f, k).value, allow)
  {
    if k in Keys(f.rest) {
      GotNamesWithin(f.rest, k, allow);
    }
  }

  /** Dropping names loses nothing exactly when every name is allowed. */
  lemma {:induction false} ProjectKeepsExactly(v: JSON, allow: seq<Text>)
    requires Distinct(v)
    ensures Same(v, Project(v, allow)) <==> NamesWithin(v, Elements(allow))
    decreases v
  {
    match v
    case Arr(items) => ProjectItemsKeepsExactly(items, allow);
    case Obj(f) =>
      PickKeepsExactly(f, f, allow);
      if !(Keys(f) <= Elements(allow)) && FieldNamesWithin(f, Elements(allow)) {
        var k :| k in Keys(f) && k !in Elements(allow);
        GotNamesWithin(f, k, Elements(allow));
      }
      if Same(v, Project(v, allow)) {
        assert Keys(f) == Keys(f) * Elements(allow);
      }
    case _ =>
  }

  lemma {:induction false} ProjectItemsKeepsExactly(x: Items, allow: seq<Text>)
    requires DistinctItems(x)
    ensures SameItems(x, ProjectItems(x, allow)) <==> ItemNamesWithin(x, Elements(allow))
    decreases x
  {
    if x.ICons? {
      ProjectKeepsExactly(x.item, allow);
      ProjectItemsKeepsExactly(x.more, allow);
    }
  }

  /** f is the tail of whole that is still to be compared. */
  lemma {:induction false} PickKeepsExactly(f: Fields, whole: Fields, allow: seq<Text>)
    requires DistinctFields(f) && Keys(f) <= Keys(whole)
    requires forall k | k in Keys(f) :: Get(whole, k) == Get(f, k)
    ensures SameUnder(f, Pick(whole, allow, allow)) <==> FieldNamesWithin(f, Elements(allow))
    decreases f
  {
    if f.FCons? {
      var k := f.key;
      assert k in Keys(f) && k in Keys(whole);
      assert Get(whole, k) == Get(f, k) == Some(f.val);
      ProjectKeepsExactly(f.val, allow);
      if k in Elements(allow) {
        GetPicked(whole, allow, allow, k);
      }
      forall q | q in Keys(f.rest)
        ensures Get(whole, q) == Get(f.rest, q)
      {
        assert q in Keys(f) && Get(whole, q) == Get(f, q);
      }
      PickKeepsExactly(f.rest, whole, allow);
    }
  }

  /** The printed form does not depend on field order, at any depth. */
  lemma {:induction false} ProjectIgnoresOrder(v: JSON, w: JSON, allow: seq<Text>)
    requires Distinct(v) && Same(v, w)
    ensures Project(v, allow) == Project(w, allow)
    decreases v
  {
    match (v, w)
    case (Arr(x), Arr(y)) => ProjectItemsIgnoresOrder(x, y, allow);
    case (Obj(f), Obj(g)) => PickIgnoresOrder(f, g, allow, allow);
    case _ =>
  }

  lemma {:induction false} ProjectItemsIgnoresOrder(x: Items, y: Items, allow: seq<Text>)
    requires DistinctItems(x) && SameItems(x, y)
    ensures ProjectItems(x, allow) == ProjectItems(y, allow)
    decreases x
  {
    if x.ICons? {
      ProjectIgnoresOrder(x.item, y.item, allow);
      ProjectItemsIgnoresOrder(x.more, y.more, allow);
    }
  }

  lemma {:induction false} PickIgnoresOrder(f: Fields, g: Fields, todo: seq<Text>, allow: seq<Text>)
    requires DistinctFields(f) && Keys(f) == Keys(g) && SameUnder(f, g)
    ensures Pick(f, todo, allow) == Pick(g, todo, allow)
    decreases f, |todo|
  {
    if todo != [] {
      PickIgnoresOrder(f, g, todo[1..], allow);
      if todo[0] in Keys(f) {
        GetSame(f, g, todo[0]);
        GotIsDistinct(f, todo[0]);
        ProjectIgnoresOrder(Get(f, todo[0]).value, Get(g, todo[0]).value, allow);
      }
    }
  }

  lemma {:induction false} GotFits(f: Fields, k: Text)
    requires FieldsFit(JavaScript, f) && k in Keys(f)
    ensures Fits(JavaScript, Get(f, k).value) && StringFits(JavaScript, k)
  {
    if k in Keys(f.rest) {
      GotFits(f.rest, k);
    }
  }

  lemma {:induction false} ProjectFits(v: JSON, allow: seq<Text>)
    requires Fits(JavaScript, v) && Ascending(allow)
    ensures Fits(JavaScript, Project(v, allow))
    decreases v
  {
    match v
    case Arr(items) => ProjectItemsFit(items, allow);
    case Obj(f) => PickFits(f, allow, allow);
    case _ =>
  }

  lemma {:induction false} ProjectItemsFit(x: Items, allow: seq<Text>)
    requires ItemsFit(JavaScript, x) && Ascending(allow)
    ensures ItemsFit(JavaScript, ProjectItems(x, allow))
    decreases x
  {
    if x.ICons? {
      ProjectFits(x.item, allow);
      ProjectItemsFit(x.more, allow);
    }
  }

  lemma {:induction false} PickFits(f: Fields, todo: seq<Text>, allow: seq<Text>)
    requires FieldsFit(JavaScript, f) && Ascending(todo) && Ascending(allow)
    ensures FieldsFit(JavaScript, Pick(f, todo, allow))
    decreases f, |todo|
  {
    if todo != [] {
      PickFits(f, todo[1..], allow);
      if todo[0] in Keys(f) {
        GotFits(f, todo[0]);
        ProjectFits(Get(f, todo[0]).value, allow);
        BeforeTotal(todo[0], todo[0]);
      }
    }
  }

  // --- _canonicalJSON --------------------------------------------------------------------------------

  function Canonical(f: Fields): (t: Text)
    requires FieldsFit(JavaScript, f)
  {
    var w := Project(Obj(f), SortedNames(f));
    NamesAscend(f);
    ProjectFits(Obj(f), SortedNames(f));
    FitsIsPrintable(JavaScript, w);
    Print(JavaScript, w)
  }

  /** Every name used inside the fields is also a name of the outermost object. */
  predicate Covered(f: Fields) {
    FieldNamesWithin(f, Keys(f))
  }

  /** The canonical text reads back as the object, up to field order, exactly when the object is covered. */
  lemma {:induction false} CanonicalFaithfulExactly(f: Fields)
    requires FieldsFit(JavaScript, f)
    ensures var r := ParseText(JavaScript, Canonical(f)); r.Some? && (Same(Obj(f), r.value) <==> Covered(f))
  {
    NamesAscend(f);
    ProjectFits(Obj(f), SortedNames(f));
    Json.RoundTrip(JavaScript, Project(Obj(f), SortedNames(f)));
    FitsIsDistinct(JavaScript, Obj(f));
    ProjectKeepsExactly(Obj(f), SortedNames(f));
  }

  lemma {:induction false} ProjectInOrder(v: JSON, allow: seq<Text>)
    requires Ascending(allow)
    ensures InOrder(Project(v, allow))
    decreases v
  {
    match v
    case Arr(items) => ProjectItemsInOrder(items, allow);
    case Obj(f) => PickInOrder(f, allow, allow);
    case _ =>
  }

  lemma {:induction false} ProjectItemsInOrder(x: Items, allow: seq<Text>)
    requires Ascending(allow)
    ensures ItemsInOrder(ProjectItems(x, allow))
    decreases x
  {
    if x.ICons? {
      ProjectInOrder(x.item, allow);
      ProjectItemsInOrder(x.more, allow);
    }
  }

  lemma {:induction false} PickInOrder(f: Fields, todo: seq<Text>, allow: seq<Text>)
    requires Ascending(todo) && Ascending(allow)
    ensures FieldsInOrder(Pick(f, todo, allow))
    decreases f, |todo|
  {
    if todo != [] {
      PickInOrder(f, todo[1..], allow);
      if todo[0] in Keys(f) {
        ProjectInOrder(Get(f, todo[0]).value, allow);
        forall k | k in Keys(Pick(f, todo[1..], allow))
          ensures ComesFirst(todo[0], k)
        {
          BeforeComesFirst(todo[0], k);
        }
      }
    }
  }

  /** The names printed by _canonicalJSON ascend in every object, at every depth. */
  lemma {:induction false} CanonicalIsSorted(f: Fields)
    requires FieldsFit(JavaScript, f)
    ensures var r := ParseText(JavaScript, Canonical(f)); r.Some? && InOrder(r.value)
  {
    NamesAscend(f);
    ProjectFits(Obj(f), SortedNames(f));
    Json.RoundTrip(JavaScript, Project(Obj(f), SortedNames(f)));
    ProjectInOrder(Obj(f), SortedNames(f));
  }

  /** On covered objects the canonical text decides equality. */
  lemma {:induction false} CanonicalDecidesSame(f: Fields, g: Fields)
    requires FieldsFit(JavaScript, f) && FieldsFit(JavaScript, g) && Covered(f) && Covered(g)
    ensures Canonical(f) == Canonical(g) <==> Same(Obj(f), Obj(g))
  {
    var v, w := Project(Obj(f), SortedNames(f)), Project(Obj(g), SortedNames(g));
    NamesAscend(f);
    NamesAscend(g);
    ProjectFits(Obj(f), SortedNames(f));
    ProjectFits(Obj(g), SortedNames(g));
    Json.RoundTrip(JavaScript, v);
    Json.RoundTrip(JavaScript, w);
    FitsIsDistinct(JavaScript, Obj(f));
    FitsIsDistinct(JavaScript, Obj(g));
    FitsIsDistinct(JavaScript, v);
    ProjectKeepsExactly(Obj(f), SortedNames(f));
    ProjectKeepsExactly(Obj(g), SortedNames(g));
    if Canonical(f) == Canonical(g) {
      assert v == w;
      SameIsSymmetric(Obj(g), v);
      SameIsTransitive(Obj(f), v, Obj(g));
    }
    if Same(Obj(f), Obj(g)) {
      AscendingIsDetermined(SortedNames(f), SortedNames(g));
      ProjectIgnoresOrder(Obj(f), Obj(g), SortedNames(f));
    }
  }

  /** Not so in general: {"a":{"b":true}} and {"a":{"b":false}} have the same canonical text. */
  lemma {:induction false} NestedObjectsCollide()
    ensures var f := b => FCons([97], Obj(FCons([98], Bool(b), FNil)), FNil);
            && FieldsFit(JavaScript, f(true)) && FieldsFit(JavaScript, f(false))
            && Canonical(f(true)) == Canonical(f(false))
            && !Same(Obj(f(true)), Obj(f(false)))
  {
    var f := b => FCons([97], Obj(FCons([98], Bool(b), FNil)), FNil);
    forall b: bool
      ensures SortedNames(f(b)) == [[97]]
      ensures Project(Obj(f(b)), [[97]]) == Obj(FCons([97], Obj(FNil), FNil))
    {
      var inner := FCons([98], Bool(b), FNil);
      assert Keys(inner) == {[98]};
      assert Get(inner, [97]).None?;
      assert Pick(inner, [[97]], [[97]]) == FNil;
      assert Get(f(b), [97]) == Some(Obj(inner));
      assert Project(Obj(inner), [[97]]) == Obj(FNil);
      assert Pick(f(b), [[97]][1..], [[97]]) == FNil;
      assert Pick(f(b), [[97]], [[97]]) == FCons([97], Obj(FNil), FNil);
    }
  }
}
