/**
 * Onion packets: the layers built by encryptionService and peeled by relayEngine. The code has three relays;
 * Build and Peel take any number of them, and ThreeLayers and PeelThree are the code's own straight-line form.
 */
module Onion {
  import opened Prelude
  import opened Json
  import opened Libraries
  import opened Stringify
  import Hex
  import Printed
  import Utf8

  /** Why a packet is refused. */
  datatype Failure =
    | MissingNonce | ReplayDetected | MissingTimestamp | OutsideWindow | TooFewNodes
    | NodeCertificate | BadLayer | UnwrapFailed | UnsealFailed | BadJson | SenderNotFound | BadPayload

  /** A relay as its row in the nodes table gives it, and whether its certificate verifies now. */
  datatype Hop = Hop(publicKey: JsString, privateKey: JsString, certificateValid: bool)

  /** The random choices made for one layer. */
  datatype LayerRandom = LayerRandom(aesKey: Bytes, iv: Bytes, seed: Bytes)

  predicate GoodRandom(r: LayerRandom) {
    |r.aesKey| == 32 && |r.iv| == 12
  }

  const WRAPPED_KEY: Text := Literal("wrappedKey")
  const CIPHERTEXT: Text := Literal("ciphertext")
  const IV: Text := Literal("iv")
  const TAG: Text := Literal("tag")

  lemma {:induction false} NamesDiffer()
    ensures WRAPPED_KEY != CIPHERTEXT
    ensures |WRAPPED_KEY| == |CIPHERTEXT| == 10 && |IV| == 2 && |TAG| == 3
  {
    assert WRAPPED_KEY[0] == 119 && CIPHERTEXT[0] == 99;
  }

  // --- Building --------------------------------------------------------------------------------------

  function LayerOf(wrapped: Bytes, ct: Bytes, iv: Bytes, tag: Bytes): (layer: JSON) {
    Obj(FCons(WRAPPED_KEY, Str(Hex.Encode(wrapped)),
        FCons(CIPHERTEXT, Str(Hex.Encode(ct)),
        FCons(IV, Str(Hex.Encode(iv)),
        FCons(TAG, Str(Hex.Encode(tag)), FNil)))))
  }

  lemma {:induction false} PlainFieldFits(k: Text, s: Text, more: Fields)
    requires IsPlain(k) && (IsPlain(s) || Hex.IsLowerHex(s)) && k !in Keys(more) && FieldsFit(JavaScript, more)
    ensures FieldsFit(JavaScript, FCons(k, Str(s), more))
  {
    assert IsUnits(k) && IsUnits(s);
  }

  lemma {:induction false} LayerFits(wrapped: Bytes, ct: Bytes, iv: Bytes, tag: Bytes)
    ensures Fits(JavaScript, LayerOf(wrapped, ct, iv, tag))
    ensures Printable(JavaScript, LayerOf(wrapped, ct, iv, tag))
  {
    NamesDiffer();
    var f3 := FCons(TAG, Str(Hex.Encode(tag)), FNil);
    var f2 := FCons(IV, Str(Hex.Encode(iv)), f3);
    var f1 := FCons(CIPHERTEXT, Str(Hex.Encode(ct)), f2);
    PlainFieldFits(TAG, Hex.Encode(tag), FNil);
    PlainFieldFits(IV, Hex.Encode(iv), f3);
    PlainFieldFits(CIPHERTEXT, Hex.Encode(ct), f2);
    PlainFieldFits(WRAPPED_KEY, Hex.Encode(wrapped), f1);
    FitsIsPrintable(JavaScript, LayerOf(wrapped, ct, iv, tag));
  }

  /** _encryptLayer. */
  function EncryptLayer(lib: Library, data: Text, publicKey: JsString, r: LayerRandom): (layer: JSON)
    ensures Fits(JavaScript, layer) && Printable(JavaScript, layer)
  {
    var sealed := lib.seal(r.aesKey, r.iv, Utf8.Encode(data));
    var wrapped := lib.wrap(publicKey, r.aesKey, r.seed);
    LayerFits(wrapped, sealed.0, r.iv, sealed.1);
    LayerOf(wrapped, sealed.0, r.iv, sealed.1)
  }

  /** One layer per relay, the first relay outermost. */
  function Build(lib: Library, data: Text, hops: seq<Hop>, r: seq<LayerRandom>): (layer: JSON)
    requires |hops| == |r| >= 1
    ensures Fits(JavaScript, layer) && Printable(JavaScript, layer)
  {
    var inner := if |hops| == 1 then data else Print(JavaScript, Build(lib, data, hops[1..], r[1..]));
    EncryptLayer(lib, inner, hops[0].publicKey, r[0])
  }

  /** The three layers of createOnionPacket, innermost first. */
  function ThreeLayers(lib: Library, payload: Text, nodes: seq<Hop>, r: seq<LayerRandom>): (layer1: JSON)
    requires |nodes| >= 3 && |r| == 3
    ensures Fits(JavaScript, layer1) && Printable(JavaScript, layer1)
  {
    var layer3 := EncryptLayer(lib, payload, nodes[2].publicKey, r[2]);
    var layer2 := EncryptLayer(lib, Print(JavaScript, layer3), nodes[1].publicKey, r[1]);
    EncryptLayer(lib, Print(JavaScript, layer2), nodes[0].publicKey, r[0])
  }

  // --- Peeling ---------------------------------------------------------------------------------------

  /** Buffer.from(layer[name], 'hex'). */
  function BytesField(lib: Library, layer: JSON, name: Text): (b: Option<Bytes>) {
    if !layer.Obj? then None
    else match Get(layer.fields, name)
      case None => None
      case Some(Str(s)) => Some(Hex.Decode(s))
      case Some(v) => lib.bufferOf(v)
  }

  /** _processNode. */
  function ProcessNode(lib: Library, layer: JSON, node: Hop): (r: Result<Text, Failure>) {
    if !node.certificateValid then Err(NodeCertificate)
    else match BytesField(lib, layer, WRAPPED_KEY)
      case None => Err(BadLayer)
      case Some(wrapped) =>
        match lib.unwrap(node.privateKey, wrapped)
        case None => Err(UnwrapFailed)
        case Some(key) =>
          var ct, iv, tag := BytesField(lib, layer, CIPHERTEXT), BytesField(lib, layer, IV), BytesField(lib, layer, TAG);
          if ct.None? || iv.None? || tag.None? then Err(BadLayer)
          else if |key| != 32 || |iv.value| != 12 || |tag.value| != 16 then Err(UnsealFailed)
          else match lib.unseal(key, iv.value, ct.value, tag.value)
            case None => Err(UnsealFailed)
            case Some(plain) => Ok(Utf8.Decode(plain))
  }

  /** Peel one layer per relay, in order. */
  function Peel(lib: Library, layer: JSON, hops: seq<Hop>): (r: Result<Text, Failure>)
    requires |hops| >= 1
    decreases |hops|
  {
    match ProcessNode(lib, layer, hops[0])
    case Err(e) => Err(e)
    case Ok(text) =>
      if |hops| == 1 then Ok(text)
      else match ParseText(JavaScript, text)
        case None => Err(BadJson)
        case Some(inner) => Peel(lib, inner, hops[1..])
  }

  /** Steps 4 to 6 of processPacket. */
  function PeelThree(lib: Library, packet: JSON, nodes: seq<Hop>): (r: Result<Text, Failure>)
    requires |nodes| >= 3
  {
    match ProcessNode(lib, packet, nodes[0])
    case Err(e) => Err(e)
    case Ok(layer2Data) =>
      match ParseText(JavaScript, layer2Data)
      case None => Err(BadJson)
      case Some(layer2) =>
        match ProcessNode(lib, layer2, nodes[1])
        case Err(e) => Err(e)
        case Ok(layer3Data) =>
          match ParseText(JavaScript, layer3Data)
          case None => Err(BadJson)
          case Some(layer3) => ProcessNode(lib, layer3, nodes[2])
  }

  // --- Peeling inverts building ----------------------------------------------------------------------

  /** The relay holds the private key of its public key, and its certificate verifies. */
  predicate Ready(lib: Library, hop: Hop) {
    hop.certificateValid && hop.publicKey == lib.publicOf(hop.privateKey)
  }

  lemma {:induction false} FourFieldsRead(wrapped: JSON, ct: JSON, iv: JSON, tag: JSON)
    ensures var f := FCons(WRAPPED_KEY, wrapped, FCons(CIPHERTEXT, ct, FCons(IV, iv, FCons(TAG, tag, FNil))));
            && Get(f, WRAPPED_KEY) == Some(wrapped) && Get(f, CIPHERTEXT) == Some(ct)
            && Get(f, IV) == Some(iv) && Get(f, TAG) == Some(tag)
  {
    NamesDiffer();
    var f3 := FCons(TAG, tag, FNil);
    var f2 := FCons(IV, iv, f3);
    var f1 := FCons(CIPHERTEXT, ct, f2);
    assert Keys(f3) == {TAG} && Keys(f2) == {IV, TAG} && Keys(f1) == {CIPHERTEXT, IV, TAG};
    assert Get(f2, IV) == Get(f1, IV) == Some(iv);
    assert Get(f3, TAG) == Get(f2, TAG) == Get(f1, TAG) == Some(tag);
  }

  lemma {:induction false} LayerFieldsRead(lib: Library, wrapped: Bytes, ct: Bytes, iv: Bytes, tag: Bytes)
    ensures var layer := LayerOf(wrapped, ct, iv, tag);
            && BytesField(lib, layer, WRAPPED_KEY) == Some(wrapped) && BytesField(lib, layer, CIPHERTEXT) == Some(ct)
            && BytesField(lib, layer, IV) == Some(iv) && BytesField(lib, layer, TAG) == Some(tag)
  {
    hide Hex.Encode, Hex.Decode;
    FourFieldsRead(Str(Hex.Encode(wrapped)), Str(Hex.Encode(ct)), Str(Hex.Encode(iv)), Str(Hex.Encode(tag)));
    Hex.RoundTrip(wrapped);
    Hex.RoundTrip(ct);
    Hex.RoundTrip(iv);
    Hex.RoundTrip(tag);
  }

  lemma {:induction false} ProcessInvertsEncrypt(lib: Library, data: Text, hop: Hop, r: LayerRandom)
    requires lib.Lawful() && Ready(lib, hop) && GoodRandom(r) && Utf8.WellFormed(data)
    ensures ProcessNode(lib, EncryptLayer(lib, data, hop.publicKey, r), hop) == Ok(data)
  {
    var sealed := lib.seal(r.aesKey, r.iv, Utf8.Encode(data));
    LayerFieldsRead(lib, lib.wrap(hop.publicKey, r.aesKey, r.seed), sealed.0, r.iv, sealed.1);
    Utf8.RoundTrip(data);
  }

  /** The first relay of several peels to the printed rest of the packet. */
  lemma {:induction false} FirstPeels(lib: Library, data: Text, hops: seq<Hop>, r: seq<LayerRandom>)
    requires lib.Lawful() && |hops| == |r| >= 2 && Utf8.WellFormed(data) && Ready(lib, hops[0]) && GoodRandom(r[0])
    ensures var inner := Build(lib, data, hops[1..], r[1..]);
            && ProcessNode(lib, Build(lib, data, hops, r), hops[0]) == Ok(Print(JavaScript, inner))
            && ParseText(JavaScript, Print(JavaScript, inner)) == Some(inner)
  {
    hide ProcessNode, EncryptLayer, ParseText, PrintTo;
    var inner := Build(lib, data, hops[1..], r[1..]);
    FitsHasTokens(JavaScript, inner);
    PrintIsWellFormed(JavaScript, inner, []);
    ProcessInvertsEncrypt(lib, Print(JavaScript, inner), hops[0], r[0]);
    Json.RoundTrip(JavaScript, inner);
  }

  /**
   * A packet built for relays that hold the private keys of their public keys peels back to its data exactly when
   * every relay's certificate verifies; otherwise the first that does not is why it is refused.
   */
  lemma {:induction false} BuiltPeelsExactly(lib: Library, data: Text, hops: seq<Hop>, r: seq<LayerRandom>)
    requires lib.Lawful() && |hops| == |r| >= 1 && Utf8.WellFormed(data)
    requires forall i | 0 <= i < |hops| :: hops[i].publicKey == lib.publicOf(hops[i].privateKey) && GoodRandom(r[i])
    ensures Peel(lib, Build(lib, data, hops, r), hops)
         == if forall i | 0 <= i < |hops| :: hops[i].certificateValid then Ok(data) else Err(NodeCertificate)
  {
    hide ParseText, PrintTo, EncryptLayer, BytesField;
    if hops[0].certificateValid {
      hide ProcessNode;
      if |hops| == 1 {
        ProcessInvertsEncrypt(lib, data, hops[0], r[0]);
      } else {
        FirstPeels(lib, data, hops, r);
        BuiltPeelsExactly(lib, data, hops[1..], r[1..]);
        assert forall i | 1 <= i < |hops| :: hops[i] == hops[1..][i - 1];
      }
    }
  }

  /** A packet built for any list of ready relays peels back to the data it was built from. */
  lemma {:induction false} PeelInvertsBuild(lib: Library, data: Text, hops: seq<Hop>, r: seq<LayerRandom>)
    requires lib.Lawful() && |hops| == |r| >= 1 && Utf8.WellFormed(data)
    requires forall i | 0 <= i < |hops| :: Ready(lib, hops[i]) && GoodRandom(r[i])
    ensures Peel(lib, Build(lib, data, hops, r), hops) == Ok(data)
  {
    BuiltPeelsExactly(lib, data, hops, r);
  }

  // --- What each layer holds -------------------------------------------------------------------------

  /** The layer wraps this fresh key for its relay, and holds its IV and the content sealed under that key. */
  predicate Carries(lib: Library, layer: JSON, privateKey: JsString, content: Text, r: LayerRandom) {
    var wrapped, ct := BytesField(lib, layer, Literal("wrappedKey")), BytesField(lib, layer, Literal("ciphertext"));
    var iv, tag := BytesField(lib, layer, Literal("iv")), BytesField(lib, layer, Literal("tag"));
    && wrapped.Some? && lib.unwrap(privateKey, wrapped.value) == Some(r.aesKey)
    && iv == Some(r.iv)
    && ct.Some? && tag.Some? && (ct.value, tag.value) == lib.seal(r.aesKey, r.iv, Utf8.Encode(content))
  }

  lemma {:induction false} EncryptedCarries(lib: Library, data: Text, privateKey: JsString, r: LayerRandom)
    requires lib.Lawful() && GoodRandom(r)
    ensures Carries(lib, EncryptLayer(lib, data, lib.publicOf(privateKey), r), privateKey, data, r)
  {
    hide BytesField, Utf8.Encode;
    var sealed := lib.seal(r.aesKey, r.iv, Utf8.Encode(data));
    LayerFieldsRead(lib, lib.wrap(lib.publicOf(privateKey), r.aesKey, r.seed), sealed.0, r.iv, sealed.1);
  }

  /** The four fields of any layer decode, the key unwraps, the sizes are right, and unsealing gives these bytes. */
  predicate Opens(lib: Library, layer: JSON, privateKey: JsString, plain: Bytes) {
    var wrapped, ct := BytesField(lib, layer, Literal("wrappedKey")), BytesField(lib, layer, Literal("ciphertext"));
    var iv, tag := BytesField(lib, layer, Literal("iv")), BytesField(lib, layer, Literal("tag"));
    && wrapped.Some? && ct.Some? && iv.Some? && tag.Some? && |iv.value| == 12 && |tag.value| == 16
    && var key := lib.unwrap(privateKey, wrapped.value);
    && key.Some? && |key.value| == 32
    && lib.unseal(key.value, iv.value, ct.value, tag.value) == Some(plain)
  }

  /** What a relay makes of any layer at all: it must be certified, and it gives exactly what the layer opens to. */
  lemma {:induction false} ProcessedExactly(lib: Library, layer: JSON, node: Hop, text: Text)
    ensures ProcessNode(lib, layer, node) == Err(NodeCertificate) <==> !node.certificateValid
    ensures ProcessNode(lib, layer, node) == Ok(text) <==>
            && node.certificateValid
            && exists plain :: Opens(lib, layer, node.privateKey, plain) && text == Utf8.Decode(plain)
  {
    hide BytesField, Utf8.Decode, Literal;
    if ProcessNode(lib, layer, node) == Ok(text) {
      var wrapped, ct := BytesField(lib, layer, WRAPPED_KEY).value, BytesField(lib, layer, CIPHERTEXT).value;
      var iv, tag := BytesField(lib, layer, IV).value, BytesField(lib, layer, TAG).value;
      var plain := lib.unseal(lib.unwrap(node.privateKey, wrapped).value, iv, ct, tag).value;
      assert Opens(lib, layer, node.privateKey, plain);
    }
  }

  /** The layer that relay k is given, the ones before it having peeled theirs. */
  function LayerAt(lib: Library, layer: JSON, hops: seq<Hop>, k: nat): (at: Option<JSON>)
    requires k < |hops|
    decreases k
  {
    if k == 0 then Some(layer)
    else match ProcessNode(lib, layer, hops[0])
      case Err(_) => None
      case Ok(text) =>
        match ParseText(JavaScript, text)
        case None => None
        case Some(inner) => LayerAt(lib, inner, hops[1..], k - 1)
  }

  /** What layer k of a built packet is built over. */
  function ContentAt(lib: Library, data: Text, hops: seq<Hop>, r: seq<LayerRandom>, k: nat): (content: Text)
    requires |hops| == |r| && k < |hops|
  {
    if k == |hops| - 1 then data else Print(JavaScript, Build(lib, data, hops[k + 1..], r[k + 1..]))
  }

  /** Every relay of a built packet meets a layer under its own fresh key, over the rest of the packet. */
  lemma {:induction false} LayersCarry(lib: Library, data: Text, hops: seq<Hop>, r: seq<LayerRandom>, k: nat)
    requires lib.Lawful() && |hops| == |r| && k < |hops| && Utf8.WellFormed(data)
    requires forall i | 0 <= i < |hops| :: Ready(lib, hops[i]) && GoodRandom(r[i])
    ensures var at := LayerAt(lib, Build(lib, data, hops, r), hops, k);
            at.Some? && Carries(lib, at.value, hops[k].privateKey, ContentAt(lib, data, hops, r, k), r[k])
    decreases k
  {
    hide ProcessNode, EncryptLayer, ParseText, PrintTo, Carries;
    if k == 0 {
      EncryptedCarries(lib, ContentAt(lib, data, hops, r, 0), hops[0].privateKey, r[0]);
    } else {
      FirstPeels(lib, data, hops, r);
      LayersCarry(lib, data, hops[1..], r[1..], k - 1);
      assert hops[1..][k..] == hops[k + 1..] && r[1..][k..] == r[k + 1..];
    }
  }

  /** One relay with an invalid certificate stops the packet, wherever it stands in the path. */
  lemma {:induction false} PeelNeedsEveryCertificate(lib: Library, layer: JSON, hops: seq<Hop>)
    requires |hops| >= 1 && exists i | 0 <= i < |hops| :: !hops[i].certificateValid
    ensures Peel(lib, layer, hops).Err?
    decreases |hops|
  {
    if hops[0].certificateValid && |hops| > 1 {
      assert exists i | 0 <= i < |hops[1..]| :: !hops[1..][i].certificateValid by {
        var i :| 0 <= i < |hops| && !hops[i].certificateValid;
        assert hops[1..][i - 1] == hops[i];
      }
      match ProcessNode(lib, layer, hops[0])
      case Err(_) =>
      case Ok(text) =>
        match ParseText(JavaScript, text)
        case None =>
        case Some(inner) => PeelNeedsEveryCertificate(lib, inner, hops[1..]);
    }
  }

  lemma {:induction false} TwoLayers(lib: Library, data: Text, hops: seq<Hop>, r: seq<LayerRandom>)
    requires |hops| == |r| == 2
    ensures Build(lib, data, hops, r)
         == EncryptLayer(lib, Print(JavaScript, EncryptLayer(lib, data, hops[1].publicKey, r[1])), hops[0].publicKey, r[0])
  {
    assert hops[1..] == [hops[1]] && r[1..] == [r[1]];
    assert Build(lib, data, [hops[1]], [r[1]]) == EncryptLayer(lib, data, hops[1].publicKey, r[1]);
  }

  lemma {:induction false} PeelTwo(lib: Library, layer: JSON, hops: seq<Hop>)
    requires |hops| == 2
    ensures Peel(lib, layer, hops) ==
            match ProcessNode(lib, layer, hops[0])
            case Err(e) => Err(e)
            case Ok(text) =>
              match ParseText(JavaScript, text)
              case None => Err(BadJson)
              case Some(inner) => ProcessNode(lib, inner, hops[1])
  {
    assert hops[1..] == [hops[1]];
    match ProcessNode(lib, layer, hops[0])
    case Err(_) =>
    case Ok(text) =>
      match ParseText(JavaScript, text)
      case None =>
      case Some(inner) => assert Peel(lib, inner, [hops[1]]) == ProcessNode(lib, inner, hops[1]);
  }

  /** The code's straight-line form is the case of three relays. */
  lemma {:induction false} ThreeIsAnInstance(lib: Library, data: Text, packet: JSON, nodes: seq<Hop>,
                                             r: seq<LayerRandom>)
    requires |nodes| >= 3 && |r| == 3
    ensures ThreeLayers(lib, data, nodes, r) == Build(lib, data, nodes[..3], r)
    ensures PeelThree(lib, packet, nodes) == Peel(lib, packet, nodes[..3])
  {
    hide EncryptLayer, ProcessNode, ParseText, PrintTo;
    var hops := nodes[..3];
    assert hops[1..] == [nodes[1], nodes[2]] && r[1..] == [r[1], r[2]];
    TwoLayers(lib, data, [nodes[1], nodes[2]], [r[1], r[2]]);
    match ProcessNode(lib, packet, nodes[0])
    case Err(_) =>
    case Ok(text) =>
      match ParseText(JavaScript, text)
      case None =>
      case Some(inner) => PeelTwo(lib, inner, [nodes[1], nodes[2]]);
  }

  lemma {:induction false} ThreePeelExactly(lib: Library, data: Text, hops: seq<Hop>, r: seq<LayerRandom>)
    requires lib.Lawful() && |hops| == |r| == 3 && Utf8.WellFormed(data)
    requires forall i | 0 <= i < 3 :: hops[i].publicKey == lib.publicOf(hops[i].privateKey) && GoodRandom(r[i])
    ensures PeelThree(lib, ThreeLayers(lib, data, hops, r), hops)
         == if forall i | 0 <= i < 3 :: hops[i].certificateValid then Ok(data) else Err(NodeCertificate)
  {
    hide ThreeLayers, PeelThree, Peel, Build;
    ThreeIsAnInstance(lib, data, ThreeLayers(lib, data, hops, r), hops, r);
    assert hops[..3] == hops;
    BuiltPeelsExactly(lib, data, hops, r);
  }

  // --- Sizes -----------------------------------------------------------------------------------------

  function Pow2(n: nat): (p: nat)
    ensures p >= 1
  {
    if n == 0 then 1 else 2 * Pow2(n - 1)
  }

  lemma {:induction false} HexIsPlain(b: Bytes)
    ensures IsPlain(Hex.Encode(b)) && IsAscii(Hex.Encode(b))
  {
  }

  lemma {:induction false} PlainStringSize(s: Text, rest: Text)
    requires IsPlain(s) && IsAscii(rest)
    ensures var t := StringTo(JavaScript, s, rest); IsAscii(t) && |t| == |s| + 2 + |rest|
  {
    Printed.QuotePlain(JavaScript, s, [34] + rest);
  }

  lemma {:induction false} StringFieldSize(k: Text, s: Text, more: Fields)
    requires IsPlain(k) && IsPlain(s) && FieldsPrintable(JavaScript, more)
    requires more.FCons? ==> IsAscii(FieldsTo(JavaScript, more, []))
    ensures var t := FieldsTo(JavaScript, FCons(k, Str(s), more), []);
            && IsAscii(t)
            && |t| == |k| + |s| + 6 + if more.FNil? then 0 else |FieldsTo(JavaScript, more, [])|
  {
    var after: Text := if more.FNil? then [125] + [] else [44] + FieldsTo(JavaScript, more, []);
    PlainStringSize(s, after);
    PlainStringSize(k, [58] + StringTo(JavaScript, s, after));
  }

  /** The printed layer is ASCII, and its size depends only on the sizes of its parts. */
  lemma {:induction false} LayerSize(wrapped: Bytes, ct: Bytes, iv: Bytes, tag: Bytes)
    ensures var layer := LayerOf(wrapped, ct, iv, tag);
            && Printable(JavaScript, layer)
            && IsAscii(Print(JavaScript, layer))
            && |Print(JavaScript, layer)| == 2 * (|wrapped| + |ct| + |iv| + |tag|) + 50
  {
    NamesDiffer();
    HexIsPlain(wrapped);
    HexIsPlain(ct);
    HexIsPlain(iv);
    HexIsPlain(tag);
    var f3 := FCons(TAG, Str(Hex.Encode(tag)), FNil);
    var f2 := FCons(IV, Str(Hex.Encode(iv)), f3);
    var f1 := FCons(CIPHERTEXT, Str(Hex.Encode(ct)), f2);
    StringFieldSize(TAG, Hex.Encode(tag), FNil);
    StringFieldSize(IV, Hex.Encode(iv), f3);
    StringFieldSize(CIPHERTEXT, Hex.Encode(ct), f2);
    StringFieldSize(WRAPPED_KEY, Hex.Encode(wrapped), f1);
  }

  lemma {:induction false} Doubled(p: nat, l: nat)
    ensures 2 * (p * l + 618 * (p - 1)) + 618 == (2 * p) * l + 618 * (2 * p - 1)
  {
    assert (2 * p) * l == 2 * (p * l);
  }

  lemma {:induction false} EncryptedSize(lib: Library, data: Text, hop: Hop, r: LayerRandom)
    requires lib.Lawful() && Ready(lib, hop) && GoodRandom(r)
    ensures var t := Print(JavaScript, EncryptLayer(lib, data, hop.publicKey, r));
            |Utf8.Encode(t)| == |t| == 2 * |Utf8.Encode(data)| + 618
  {
    var sealed := lib.seal(r.aesKey, r.iv, Utf8.Encode(data));
    LayerSize(lib.wrap(hop.publicKey, r.aesKey, r.seed), sealed.0, r.iv, sealed.1);
    Utf8.AsciiIsWellFormed(Print(JavaScript, EncryptLayer(lib, data, hop.publicKey, r)));
  }

  /** A layer over L bytes prints as 2L + 618 bytes, so n layers print as 2^n L + 618 (2^n - 1). */
  lemma {:induction false} BuiltSize(lib: Library, data: Text, hops: seq<Hop>, r: seq<LayerRandom>)
    requires lib.Lawful() && |hops| == |r| >= 1
    requires forall i | 0 <= i < |hops| :: Ready(lib, hops[i]) && GoodRandom(r[i])
    ensures var t := Print(JavaScript, Build(lib, data, hops, r));
            && |Utf8.Encode(t)| == |t| == Pow2(|hops|) * |Utf8.Encode(data)| + 618 * (Pow2(|hops|) - 1)
  {
    if |hops| == 1 {
      EncryptedSize(lib, data, hops[0], r[0]);
      assert Pow2(1) == 2 * Pow2(0);
    } else {
      BuiltSize(lib, data, hops[1..], r[1..]);
      EncryptedSize(lib, Print(JavaScript, Build(lib, data, hops[1..], r[1..])), hops[0], r[0]);
      Doubled(Pow2(|hops| - 1), |Utf8.Encode(data)|);
    }
  }
}
