/** JSON objects with a fixed list of field names, and arrays of integers. */
module Records {
  import opened Prelude
  import opened Json
  import Decimal

  function Record(names: seq<Text>, values: seq<JSON>): (f: Fields)
    requires |names| == |values|
  {
    if names == [] then FNil else FCons(names[0], values[0], Record(names[1..], values[1..]))
  }

  predicate AllDifferent(names: seq<Text>) {
    forall i, j | 0 <= i < j < |names| :: names[i] != names[j]
  }

  lemma {:induction false} RecordKeys(names: seq<Text>, values: seq<JSON>, k: Text)
    requires |names| == |values|
    ensures k in Keys(Record(names, values)) <==> k in names
  {
    if names != [] {
      RecordKeys(names[1..], values[1..], k);
    }
  }

  lemma {:induction false} GetRecord(names: seq<Text>, values: seq<JSON>, i: nat)
    requires i < |names| == |values| && AllDifferent(names)
    ensures Get(Record(names, values), names[i]) == Some(values[i])
  {
    if i == 0 {
      RecordKeys(names[1..], values[1..], names[0]);
    } else {
      GetRecord(names[1..], values[1..], i - 1);
    }
  }

  lemma {:induction false} RecordFits(lang: Lang, names: seq<Text>, values: seq<JSON>)
    requires |names| == |values| && AllDifferent(names)
    requires forall i | 0 <= i < |names| :: StringFits(lang, names[i]) && Fits(lang, values[i])
    ensures FieldsFit(lang, Record(names, values))
  {
    if names != [] {
      RecordKeys(names[1..], values[1..], names[0]);
      RecordFits(lang, names[1..], values[1..]);
    }
  }

  /** A list of integers. */
  function NumberItems(ns: seq<int>): (x: Items) {
    if ns == [] then INil else ICons(Num(Decimal.OfInt(ns[0])), NumberItems(ns[1..]))
  }

  lemma {:induction false} NumberItemsFit(lang: Lang, ns: seq<int>)
    ensures ItemsFit(lang, NumberItems(ns))
  {
    if ns != [] {
      IntegerIsNumber(ns[0]);
      NumberItemsFit(lang, ns[1..]);
    }
  }
}
