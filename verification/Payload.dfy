/** The innermost payload of a packet: the message, its signature and who sent it. */
module Payload {
  import opened Prelude
  import opened Json
  import opened Libraries
  import opened Onion
  import opened Records
  import opened Stringify
  import Decimal
  import Hex
  import Printed
  import Utf8

  const MESSAGE: Text := Literal("message")
  const SIGNATURE: Text := Literal("signature")
  const SENDER_ID: Text := Literal("senderId")
  const SENDER_SERIAL: Text := Literal("senderCertSerial")

  const NAMES := [MESSAGE, SIGNATURE, SENDER_ID, SENDER_SERIAL]

  function Values(message: JsString, signature: Bytes, senderId: int, serial: int): (v: seq<JSON>)
    ensures |v| == |NAMES|
  {
    [Str(message), Str(Hex.Encode(signature)), Num(Decimal.OfInt(senderId)), Num(Decimal.OfInt(serial))]
  }

  function PayloadFields(message: JsString, signature: Bytes, senderId: int, serial: int): (f: Fields)
    ensures FieldsFit(JavaScript, f)
  {
    var values := Values(message, signature, senderId, serial);
    IntegerIsNumber(senderId);
    IntegerIsNumber(serial);
    RecordFits(JavaScript, NAMES, values);
    Record(NAMES, values)
  }

  /** The payload text of createOnionPacket. */
  function PayloadText(message: JsString, signature: Bytes, senderId: int, serial: int): (t: Text) {
    var f := PayloadFields(message, signature, senderId, serial);
    FitsIsPrintable(JavaScript, Obj(f));
    Print(JavaScript, Obj(f))
  }

  // --- Reading a payload -----------------------------------------------------------------------------

  /** The string that is checked against the signature; null, undefined and numbers throw. */
  function MessageText(lib: Library, v: JSON): (t: Option<Text>) {
    match v
    case Str(s) => Some(s)
    case Null => None
    case Num(_) => None
    case _ => lib.stringOf(v)
  }

  /** The row id a JSON value selects; values other than decimal integers are SQLite's affair. */
  function RowId(lib: Library, v: JSON): (id: Option<int>) {
    match v
    case Num(token) =>
      var n := Decimal.ToInt(token);
      if n.Some? then n else lib.rowIdOf(v)
    case _ => lib.rowIdOf(v)
  }

  /** An honest payload is well-formed text and reads back field for field. */
  lemma {:induction false} PayloadReads(lib: Library, message: JsString, signature: Bytes, senderId: int, serial: int)
    ensures var t := PayloadText(message, signature, senderId, serial);
            var f := PayloadFields(message, signature, senderId, serial);
            && Utf8.WellFormed(t)
            && ParseText(JavaScript, t) == Some(Obj(f))
            && Get(f, Literal("message")) == Some(Str(message))
            && Get(f, Literal("signature")) == Some(Str(Hex.Encode(signature)))
            && Get(f, Literal("senderId")) == Some(Num(Decimal.OfInt(senderId)))
            && Get(f, Literal("senderCertSerial")) == Some(Num(Decimal.OfInt(serial)))
            && BytesField(lib, Obj(f), SIGNATURE) == Some(signature)
            && RowId(lib, Get(f, SENDER_ID).value) == Some(senderId)
  {
    hide PrintTo, ParseText, Hex.Encode, Hex.Decode, Decimal.OfInt, Decimal.ToInt, Tokens;
    var f := PayloadFields(message, signature, senderId, serial);
    var values := Values(message, signature, senderId, serial);
    FitsIsPrintable(JavaScript, Obj(f));
    FitsHasTokens(JavaScript, Obj(f));
    PrintIsWellFormed(JavaScript, Obj(f), []);
    Json.RoundTrip(JavaScript, Obj(f));
    GetRecord(NAMES, values, 0);
    GetRecord(NAMES, values, 1);
    GetRecord(NAMES, values, 2);
    GetRecord(NAMES, values, 3);
    Hex.RoundTrip(signature);
    Decimal.RoundTrip(senderId);
  }

  // --- Sizes -----------------------------------------------------------------------------------------

  /** Each code unit of a string adds at most six bytes to the printed text. */
  lemma {:induction false} QuoteAdds(s: Text, rest: Text)
    requires IsUnits(s)
    ensures |Utf8.Encode(QuoteTo(JavaScript, s, rest))| <= 6 * |s| + |Utf8.Encode(rest)|
  {
    if s == [] {
    } else if Utf8.StartsWithPair(s) {
      QuoteAdds(s[2..], rest);
      var t := QuoteTo(JavaScript, s, rest);
      assert t[2..] == QuoteTo(JavaScript, s[2..], rest);
    } else {
      QuoteAdds(s[1..], rest);
      var q, tail := QuoteChar(JavaScript, s[0]), QuoteTo(JavaScript, s[1..], rest);
      if q == [s[0]] {
        Utf8.EncodeAfter(s[0], tail);
      } else {
        Utf8.AsciiAdds(q, tail);
      }
    }
  }

  lemma {:induction false} StringAdds(s: Text, rest: Text)
    requires IsUnits(s)
    ensures |Utf8.Encode(StringTo(JavaScript, s, rest))| <= 6 * |s| + 2 + |Utf8.Encode(rest)|
    ensures IsPlain(s) ==> |Utf8.Encode(StringTo(JavaScript, s, rest))| == |s| + 2 + |Utf8.Encode(rest)|
  {
    Utf8.AsciiAdds([34], rest);
    QuoteAdds(s, [34] + rest);
    Utf8.AsciiAdds([34], QuoteTo(JavaScript, s, [34] + rest));
    if IsPlain(s) {
      Printed.QuotePlain(JavaScript, s, [34] + rest);
      Utf8.AsciiAdds(s, [34] + rest);
    }
  }

  lemma {:induction false} FieldAdds(k: Text, v: JSON, more: Fields)
    requires IsPlain(k) && FieldsPrintable(JavaScript, FCons(k, v, more))
    ensures var after := if more.FNil? then [125] + [] else [44] + FieldsTo(JavaScript, more, []);
            var tail := if more.FNil? then 0 else |Utf8.Encode(FieldsTo(JavaScript, more, []))|;
            && |Utf8.Encode(after)| == 1 + tail
            && |Utf8.Encode(FieldsTo(JavaScript, FCons(k, v, more), []))|
            == |k| + 3 + |Utf8.Encode(PrintTo(JavaScript, v, after))|
  {
    var after: Text := if more.FNil? then [125] + [] else [44] + FieldsTo(JavaScript, more, []);
    Utf8.AsciiAdds(if more.FNil? then [125] else [44], if more.FNil? then [] else FieldsTo(JavaScript, more, []));
    Utf8.AsciiAdds([58], PrintTo(JavaScript, v, after));
    StringAdds(k, [58] + PrintTo(JavaScript, v, after));
  }

  lemma {:induction false} NumberIsAscii(n: int)
    ensures forall i | 0 <= i < |Decimal.OfInt(n)| :: Decimal.OfInt(n)[i] < 0x80
  {
    var d := Decimal.OfNat(if n < 0 then -n else n);
    assert forall i | 0 <= i < |d| :: Decimal.IsDigit(d[i]);
  }

  lemma {:induction false} FourFields(v: seq<JSON>)
    requires |v| == 4
    ensures Record(NAMES, v)
         == FCons(MESSAGE, v[0], FCons(SIGNATURE, v[1], FCons(SENDER_ID, v[2], FCons(SENDER_SERIAL, v[3], FNil))))
  {
    assert NAMES[1..][1..] == [SENDER_ID, SENDER_SERIAL] && v[1..][1..] == [v[2], v[3]];
    assert Record([SENDER_SERIAL], [v[3]]) == FCons(SENDER_SERIAL, v[3], FNil);
    assert Record([SENDER_ID, SENDER_SERIAL], [v[2], v[3]])
        == FCons(SENDER_ID, v[2], Record([SENDER_ID, SENDER_SERIAL][1..], [v[2], v[3]][1..]));
    assert [SENDER_ID, SENDER_SERIAL][1..] == [SENDER_SERIAL] && [v[2], v[3]][1..] == [v[3]];
  }

  /** The payload of a message of any length, whatever characters it has. */
  lemma {:induction false} PayloadBound(message: JsString, signature: Bytes, senderId: int, serial: int)
    ensures |Utf8.Encode(PayloadText(message, signature, senderId, serial))|
         <= 6 * |message| + 2 * |signature| + |Decimal.OfInt(senderId)| + |Decimal.OfInt(serial)| + 61
  {
    hide Hex.Encode, Decimal.OfInt, Utf8.Encode, StringTo;
    var f := PayloadFields(message, signature, senderId, serial);
    FitsIsPrintable(JavaScript, Obj(f));
    var f3 := FCons(SENDER_SERIAL, Num(Decimal.OfInt(serial)), FNil);
    var f2 := FCons(SENDER_ID, Num(Decimal.OfInt(senderId)), f3);
    var f1 := FCons(SIGNATURE, Str(Hex.Encode(signature)), f2);
    FourFields(Values(message, signature, senderId, serial));
    assert f == FCons(MESSAGE, Str(message), f1);
    assert FieldsPrintable(JavaScript, f1);
    assert FieldsPrintable(JavaScript, f2);
    assert FieldsPrintable(JavaScript, f3);
    NumberIsAscii(serial);
    NumberIsAscii(senderId);
    HexIsPlain(signature);
    FieldAdds(SENDER_SERIAL, f3.val, FNil);
    Utf8.AsciiAdds(Decimal.OfInt(serial), [125] + []);
    FieldAdds(SENDER_ID, f2.val, f3);
    Utf8.AsciiAdds(Decimal.OfInt(senderId), [44] + FieldsTo(JavaScript, f3, []));
    FieldAdds(SIGNATURE, f1.val, f2);
    StringAdds(Hex.Encode(signature), [44] + FieldsTo(JavaScript, f2, []));
    FieldAdds(MESSAGE, f.val, f1);
    StringAdds(message, [44] + FieldsTo(JavaScript, f1, []));
    Utf8.AsciiAdds([123], FieldsTo(JavaScript, f, []));
  }

  lemma {:induction false} ThreeRelaySize(lib: Library, payload: Text, nodes: seq<Hop>, r: seq<LayerRandom>)
    requires lib.Lawful() && |nodes| == |r| == 3
    requires forall i | 0 <= i < 3 :: Ready(lib, nodes[i]) && GoodRandom(r[i])
    ensures |Print(JavaScript, ThreeLayers(lib, payload, nodes, r))| == 8 * |Utf8.Encode(payload)| + 4326
  {
    hide ThreeLayers, Build, PrintTo, Utf8.Encode, PeelThree, Peel;
    assert nodes[..3] == nodes;
    ThreeIsAnInstance(lib, payload, Null, nodes, r);
    BuiltSize(lib, payload, nodes, r);
    assert Pow2(1) == 2 * Pow2(0);
    assert Pow2(2) == 2 * Pow2(1);
    assert Pow2(3) == 8;
  }

  /** The packet of any message within the 10 000 limit, over three relays and with a 256-byte signature. */
  lemma {:induction false} PacketBound(lib: Library, message: JsString, signature: Bytes, senderId: int, serial: int,
                                       nodes: seq<Hop>, r: seq<LayerRandom>)
    requires lib.Lawful() && |nodes| == |r| == 3 && |message| <= 10000 && |signature| == 256
    requires forall i | 0 <= i < 3 :: Ready(lib, nodes[i]) && GoodRandom(r[i])
    ensures |Print(JavaScript, ThreeLayers(lib, PayloadText(message, signature, senderId, serial), nodes, r))|
         <= 488910 + 8 * (|Decimal.OfInt(senderId)| + |Decimal.OfInt(serial)|)
  {
    var payload := PayloadText(message, signature, senderId, serial);
    PayloadBound(message, signature, senderId, serial);
    ThreeRelaySize(lib, payload, nodes, r);
  }
}
