/** The JavaScript certificate authority: certificates, the revocation list and the relay nodes. */
module PkiService {
  import opened Prelude
  import opened Json
  import opened Libraries
  import opened Records
  import opened Signing
  import CanonicalJson
  import Decimal
  import Hex
  import JsCanonical
  import Stringify
  import Utf8

  /** A certificate; version 1 and the issuer are the same in all of them. Dates are ISO text. */
  datatype Certificate = Certificate(
    serialNumber: int,
    subject: JsString,
    publicKey: JsString,
    notBefore: JsString,
    notAfter: JsString,
    signature: JsString)

  const ISSUER: JsString := Literal("DarkTunnel-CA")
  const VALIDITY_DAYS := 365
  const CA_VALIDITY_YEARS := 10
  const CA_SERIAL := 1000

  const VERSION: Text := Literal("version")
  const SERIAL_NUMBER: Text := Literal("serialNumber")
  const SUBJECT: Text := Literal("subject")
  const ISSUED_BY: Text := Literal("issuer")
  const PUBLIC_KEY: Text := Literal("publicKey")
  const NOT_BEFORE: Text := Literal("notBefore")
  const NOT_AFTER: Text := Literal("notAfter")
  const SIGNATURE: Text := Literal("signature")

  const BODY_NAMES := [VERSION, SERIAL_NUMBER, SUBJECT, ISSUED_BY, PUBLIC_KEY, NOT_BEFORE, NOT_AFTER]
  const NAMES := BODY_NAMES + [SIGNATURE]

  lemma {:induction false} NamesDiffer()
    ensures AllDifferent(BODY_NAMES) && AllDifferent(NAMES)
    ensures forall i | 0 <= i < |NAMES| :: IsUnits(NAMES[i])
  {
    assert VERSION[0] == 118 && SUBJECT[0] == 115;
    assert PUBLIC_KEY[0] == 112 && NOT_BEFORE[0] == 110 && SIGNATURE[0] == 115;
  }

  function BodyValues(c: Certificate): (values: seq<JSON>)
    ensures |values| == |BODY_NAMES|
  {
    [Num([49]), Num(Decimal.OfInt(c.serialNumber)), Str(c.subject), Str(ISSUER), Str(c.publicKey),
     Str(c.notBefore), Str(c.notAfter)]
  }

  lemma {:induction false} ValuesFit(c: Certificate)
    ensures forall i | 0 <= i < |BodyValues(c)| :: Fits(JavaScript, BodyValues(c)[i])
  {
    IntegerIsNumber(1);
    assert Decimal.OfInt(1) == [49];
    IntegerIsNumber(c.serialNumber);
  }

  /** certBody: every field except the signature. */
  function Body(c: Certificate): (f: Fields)
    ensures FieldsFit(JavaScript, f)
  {
    NamesDiffer();
    ValuesFit(c);
    RecordFits(JavaScript, BODY_NAMES, BodyValues(c));
    Record(BODY_NAMES, BodyValues(c))
  }

  function Whole(c: Certificate): (f: Fields)
    ensures FieldsFit(JavaScript, f)
  {
    var values := BodyValues(c) + [Str(c.signature)];
    NamesDiffer();
    ValuesFit(c);
    RecordFits(JavaScript, NAMES, values);
    Record(NAMES, values)
  }

  // --- Storing and loading ---------------------------------------------------------------------------

  /** JSON.stringify(certificate), as the certificate columns hold it. */
  function Stored(c: Certificate): (t: Text) {
    FitsIsPrintable(JavaScript, Obj(Whole(c)));
    Print(JavaScript, Obj(Whole(c)))
  }

  function StringField(f: Fields, name: Text): (s: Option<JsString>) {
    match Get(f, name)
    case Some(Str(s)) => if IsUnits(s) then Some(s) else None
    case _ => None
  }

  function IntField(f: Fields, name: Text): (n: Option<int>) {
    match Get(f, name)
    case Some(Num(token)) => Decimal.ToInt(token)
    case _ => None
  }

  /** JSON.parse of a certificate column, when it holds a certificate of this authority's form. */
  function Load(t: Text): (c: Option<Certificate>) {
    match ParseText(JavaScript, t)
    case Some(Obj(f)) =>
      var serial := IntField(f, SERIAL_NUMBER);
      var subject, key := StringField(f, SUBJECT), StringField(f, PUBLIC_KEY);
      var from, to, signature := StringField(f, NOT_BEFORE), StringField(f, NOT_AFTER), StringField(f, SIGNATURE);
      if Get(f, VERSION) == Some(Num([49])) && Get(f, ISSUED_BY) == Some(Str(ISSUER)) && serial.Some?
         && subject.Some? && key.Some? && from.Some? && to.Some? && signature.Some?
      then Some(Certificate(serial.value, subject.value, key.value, from.value, to.value, signature.value))
      else None
    case _ => None
  }

  lemma {:induction false} WholeFields(c: Certificate)
    ensures Get(Whole(c), Literal("version")) == Some(Num([49]))
    ensures Get(Whole(c), Literal("serialNumber")) == Some(Num(Decimal.OfInt(c.serialNumber)))
    ensures Get(Whole(c), Literal("subject")) == Some(Str(c.subject))
    ensures Get(Whole(c), Literal("issuer")) == Some(Str(Literal("DarkTunnel-CA")))
    ensures Get(Whole(c), Literal("publicKey")) == Some(Str(c.publicKey))
    ensures Get(Whole(c), Literal("notBefore")) == Some(Str(c.notBefore))
    ensures Get(Whole(c), Literal("notAfter")) == Some(Str(c.notAfter))
    ensures Get(Whole(c), Literal("signature")) == Some(Str(c.signature))
  {
    NamesDiffer();
    var values := BodyValues(c) + [Str(c.signature)];
    GetRecord(NAMES, values, 0);
    GetRecord(NAMES, values, 1);
    GetRecord(NAMES, values, 2);
    GetRecord(NAMES, values, 3);
    GetRecord(NAMES, values, 4);
    GetRecord(NAMES, values, 5);
    GetRecord(NAMES, values, 6);
    GetRecord(NAMES, values, 7);
  }

  /** A stored certificate loads as it was. */
  lemma {:induction false} LoadInvertsStored(c: Certificate)
    ensures Load(Stored(c)) == Some(c)
  {
    hide Whole, Decimal.OfInt, Decimal.ToInt, ParseText, PrintTo;
    Json.RoundTrip(JavaScript, Obj(Whole(c)));
    WholeFields(c);
    Decimal.RoundTrip(c.serialNumber);
  }

  // --- What is signed --------------------------------------------------------------------------------

  /** _canonicalJSON(certBody). */
  function SignedText(c: Certificate): (t: Text) {
    JsCanonical.Canonical(Body(c))
  }

  function SignedBytes(c: Certificate): (b: Bytes) {
    Utf8.Encode(SignedText(c))
  }

  lemma {:induction false} FlatIsCovered(names: seq<Text>, values: seq<JSON>, allow: set<Text>)
    requires |names| == |values| && forall i | 0 <= i < |names| :: names[i] in allow && !values[i].Arr? && !values[i].Obj?
    ensures JsCanonical.FieldNamesWithin(Record(names, values), allow)
  {
    if names != [] {
      FlatIsCovered(names[1..], values[1..], allow);
    }
  }

  lemma {:induction false} BodyIsCovered(c: Certificate)
    ensures JsCanonical.Covered(Body(c))
  {
    forall i | 0 <= i < |BODY_NAMES|
      ensures BODY_NAMES[i] in Keys(Body(c))
    {
      RecordKeys(BODY_NAMES, BodyValues(c), BODY_NAMES[i]);
    }
    FlatIsCovered(BODY_NAMES, BodyValues(c), Keys(Body(c)));
  }

  lemma {:induction false} SameRecords(names: seq<Text>, a: seq<JSON>, b: seq<JSON>, i: nat)
    requires i < |names| == |a| == |b| && AllDifferent(names) && !a[i].Arr? && !a[i].Obj?
    requires CanonicalJson.DistinctFields(Record(names, a))
    requires CanonicalJson.SameUnder(Record(names, a), Record(names, b))
    ensures a[i] == b[i]
  {
    GetRecord(names, a, i);
    GetRecord(names, b, i);
    RecordKeys(names, a, names[i]);
    CanonicalJson.GetSame(Record(names, a), Record(names, b), names[i]);
  }

  /** The text that is signed determines every field but the signature. */
  lemma {:induction false} SignedTextBinds(a: Certificate, b: Certificate)
    ensures SignedText(a) == SignedText(b) <==> a.(signature := b.signature) == b
  {
    hide Decimal.OfInt, Decimal.ToInt, JsCanonical.Canonical, JsCanonical.Covered;
    BodyIsCovered(a);
    BodyIsCovered(b);
    JsCanonical.CanonicalDecidesSame(Body(a), Body(b));
    if SignedText(a) == SignedText(b) {
      NamesDiffer();
      CanonicalJson.FitsIsDistinct(JavaScript, Obj(Body(a)));
      forall i | 0 <= i < 7
        ensures BodyValues(a)[i] == BodyValues(b)[i]
      {
        SameRecords(BODY_NAMES, BodyValues(a), BodyValues(b), i);
      }
      Decimal.RoundTrip(a.serialNumber);
      Decimal.RoundTrip(b.serialNumber);
      assert BodyValues(a)[1] == BodyValues(b)[1] && BodyValues(a)[2] == BodyValues(b)[2];
      assert BodyValues(a)[4] == BodyValues(b)[4] && BodyValues(a)[5] == BodyValues(b)[5];
      assert BodyValues(a)[6] == BodyValues(b)[6];
    }
  }

  /** So do its bytes. */
  lemma {:induction false} SignedBytesBind(a: Certificate, b: Certificate)
    ensures SignedBytes(a) == SignedBytes(b) <==> a.(signature := b.signature) == b
  {
    SignedTextBinds(a, b);
    var v := JsCanonical.Project(Obj(Body(a)), JsCanonical.SortedNames(Body(a)));
    var w := JsCanonical.Project(Obj(Body(b)), JsCanonical.SortedNames(Body(b)));
    JsCanonical.NamesAscend(Body(a));
    JsCanonical.NamesAscend(Body(b));
    JsCanonical.ProjectFits(Obj(Body(a)), JsCanonical.SortedNames(Body(a)));
    JsCanonical.ProjectFits(Obj(Body(b)), JsCanonical.SortedNames(Body(b)));
    FitsIsPrintable(JavaScript, v);
    FitsIsPrintable(JavaScript, w);
    Stringify.BytesDecideValue(JavaScript, v, w);
  }

  // --- The authority's state -------------------------------------------------------------------------

  /** The service's fields, its CRL file, and the ledger of everything signed so far by anyone. */
  datatype Pki = Pki(
    initialized: bool,
    caPrivate: JsString,
    nextSerial: int,
    crl: seq<int>,
    crlFile: Option<Text>,
    ledger: Ledger)

  datatype Validity = Valid | BadFormat | Revoked | NotYetValid | Expired | BadSignature

  function CaPublic(lib: Library, p: Pki): JsString {
    lib.publicOf(p.caPrivate)
  }

  /** The certificate of issueCertificate, before anything is recorded. */
  function NewCertificate(lib: Library, serial: int, subject: JsString, publicKey: JsString, now: int, sig: Bytes)
    : (c: Certificate)
  {
    Certificate(serial, subject, publicKey, lib.isoOf(now), lib.isoOf(lib.plusDays(now, VALIDITY_DAYS)), Hex.Encode(sig))
  }

  /** The ledger after the authority signs c. */
  function SignCertificate(lib: Library, p: Pki, c: Certificate, sig: Bytes): (q: Pki) {
    p.(ledger := Sign(p.ledger, CaPublic(lib, p), SignedBytes(c), sig))
  }

  /** issueCertificate: the new state and the certificate, or None when the service is not initialized. */
  function Issue(lib: Library, p: Pki, subject: JsString, publicKey: JsString, now: int, sig: Bytes)
    : (r: (Pki, Option<Certificate>))
  {
    if !p.initialized then (p, None)
    else
      var c := NewCertificate(lib, p.nextSerial, subject, publicKey, now, sig);
      (SignCertificate(lib, p.(nextSerial := p.nextSerial + 1), c, sig), Some(c))
  }

  /** verifyCertificate, its tests in order. A date that does not parse passes its test, as NaN does. */
  function Verify(lib: Library, p: Pki, c: Certificate, now: int): (v: Validity) {
    var from, to := lib.dateOf(c.notBefore), lib.dateOf(c.notAfter);
    if c.signature == [] then BadFormat
    else if c.serialNumber in p.crl then Revoked
    else if from.Some? && from.value > now then NotYetValid
    else if to.Some? && to.value < now then Expired
    else if !Verifies(p.ledger, CaPublic(lib, p), SignedBytes(c), Hex.Decode(c.signature)) then BadSignature
    else Valid
  }

  /** What a certificate column verifies as; text that does not load is no certificate. */
  predicate StoredIsValid(lib: Library, p: Pki, t: Text, now: int) {
    match Load(t)
    case None => false
    case Some(c) => Verify(lib, p, c, now) == Valid
  }

  // --- The revocation list and its file --------------------------------------------------------------

  /** Set.add, on a set kept in insertion order. */
  function Added(crl: seq<int>, n: int): (r: seq<int>)
    ensures forall k :: k in r <==> k in crl || k == n
  {
    if n in crl then crl else crl + [n]
  }

  predicate NoRepeats(ns: seq<int>) {
    forall i, j | 0 <= i < j < |ns| :: ns[i] != ns[j]
  }

  /** JSON.stringify([...crl]). */
  function CrlText(crl: seq<int>): (t: Text) {
    NumberItemsFit(JavaScript, crl);
    FitsIsPrintable(JavaScript, Arr(NumberItems(crl)));
    Print(JavaScript, Arr(NumberItems(crl)))
  }

  /** The set of integers among the items, in insertion order, starting from crl. */
  function SetOf(crl: seq<int>, x: Items): (r: seq<int>)
    decreases x
  {
    match x
    case INil => crl
    case ICons(Num(token), more) =>
      var n := Decimal.ToInt(token);
      SetOf(if n.Some? then Added(crl, n.value) else crl, more)
    case ICons(_, more) => SetOf(crl, more)
  }

  /** _loadCRL: a missing or unreadable file gives the empty list. */
  function CrlFrom(file: Option<Text>): (crl: seq<int>) {
    if file.None? then []
    else match ParseText(JavaScript, file.value)
      case Some(Arr(items)) => SetOf([], items)
      case _ => []
  }

  lemma {:induction false} SetOfNumbers(crl: seq<int>, ns: seq<int>)
    requires NoRepeats(crl + ns)
    ensures SetOf(crl, NumberItems(ns)) == crl + ns
    decreases ns
  {
    if ns == [] {
    } else {
      Decimal.RoundTrip(ns[0]);
      assert (crl + ns)[|crl|] == ns[0];
      assert ns[0] !in crl by {
        forall i | 0 <= i < |crl|
          ensures crl[i] != ns[0]
        {
          assert (crl + ns)[i] == crl[i];
        }
      }
      assert crl + [ns[0]] + ns[1..] == crl + ns;
      SetOfNumbers(crl + [ns[0]], ns[1..]);
    }
  }

  /** The saved list reads back as the list in memory. */
  lemma {:induction false} CrlFileReadsBack(crl: seq<int>)
    requires NoRepeats(crl)
    ensures CrlFrom(Some(CrlText(crl))) == crl
  {
    NumberItemsFit(JavaScript, crl);
    Json.RoundTrip(JavaScript, Arr(NumberItems(crl)));
    assert [] + crl == crl;
    SetOfNumbers([], crl);
  }

  /** revokeCertificate; saved says whether the file could be written. */
  function Revoke(p: Pki, serial: int, saved: bool): (q: Pki) {
    var crl := Added(p.crl, serial);
    p.(crl := crl, crlFile := if saved then Some(CrlText(crl)) else p.crlFile)
  }

  // --- Start-up --------------------------------------------------------------------------------------

  datatype Node = Node(name: JsString, publicKey: JsString, privateKey: JsString, certificate: Text)

  const RELAY_NODES: seq<JsString> := [Literal("NodeA"), Literal("NodeB"), Literal("NodeC")]

  /**
   * The keys, signatures and time of one start of the server. stop counts the effects of making the relay nodes that
   * happen before the process dies: for each node its certificate is signed, then its row inserted.
   */
  datatype Start = Start(caPrivate: JsString, caSignature: Bytes, nodeKeys: seq<JsString>, nodeSignatures: seq<Bytes>,
                         now: int, stop: nat)

  /** One key and one signature for each node; a signature is not empty. */
  predicate GoodStart(b: Start) {
    && |b.nodeKeys| == |b.nodeSignatures| == |RELAY_NODES|
    && forall i | 0 <= i < |b.nodeSignatures| :: b.nodeSignatures[i] != []
  }

  predicate HasName(nodes: seq<Node>, name: JsString) {
    exists i | 0 <= i < |nodes| :: nodes[i].name == name
  }

  /** The relay nodes from number i on; false when the process dies, or a name is already taken and the insert throws. */
  function AddNodes(lib: Library, p: Pki, nodes: seq<Node>, b: Start, i: nat): (r: (Pki, seq<Node>, bool))
    requires GoodStart(b) && i <= |RELAY_NODES|
    decreases |RELAY_NODES| - i
  {
    if i == |RELAY_NODES| then (p, nodes, true)
    else if b.stop == 2 * i then (p, nodes, false)
    else
      var publicKey := lib.publicOf(b.nodeKeys[i]);
      var (q, c) := Issue(lib, p, RELAY_NODES[i], publicKey, b.now, b.nodeSignatures[i]);
      if c.None? || b.stop == 2 * i + 1 || HasName(nodes, RELAY_NODES[i]) then (q, nodes, false)
      else
        AddNodes(lib, q, nodes + [Node(RELAY_NODES[i], publicKey, b.nodeKeys[i], Stored(c.value))], b, i + 1)
  }

  /** _initializeRelayNodes: existing nodes are kept, and the last of them may move the serial counter. */
  function InitializeNodes(lib: Library, p: Pki, nodes: seq<Node>, b: Start): (r: (Pki, seq<Node>, bool))
    requires GoodStart(b)
  {
    if |nodes| < 3 then AddNodes(lib, p, nodes, b, 0)
    else match Load(nodes[|nodes| - 1].certificate)
      case None => (p, nodes, false)
      case Some(c) =>
        (p.(nextSerial := if c.serialNumber >= p.nextSerial then c.serialNumber + 1 else p.nextSerial), nodes, true)
  }

  function CaCertificate(lib: Library, b: Start): (c: Certificate) {
    Certificate(CA_SERIAL, ISSUER, lib.publicOf(b.caPrivate), lib.isoOf(b.now),
                lib.isoOf(lib.plusYears(b.now, CA_VALIDITY_YEARS)), Hex.Encode(b.caSignature))
  }

  /** A new process: the constructor, then initialize, over the tables and the CRL file it finds. */
  function Initialize(lib: Library, p: Pki, nodes: seq<Node>, b: Start): (r: (Pki, seq<Node>, bool))
    requires GoodStart(b)
  {
    var started := Pki(true, b.caPrivate, CA_SERIAL + 1, CrlFrom(p.crlFile), p.crlFile, p.ledger);
    InitializeNodes(lib, SignCertificate(lib, started, CaCertificate(lib, b), b.caSignature), nodes, b)
  }

  /** A clock reading whose ISO text and that of the end of validity exist. */
  predicate Datable(lib: Library, now: int) {
    IsDate(now) && IsDate(lib.plusDays(now, VALIDITY_DAYS))
  }

  /** Revocation and the dates of a certificate made at issuedAt. */
  predicate Current(lib: Library, p: Pki, serial: int, issuedAt: int, now: int) {
    serial !in p.crl && issuedAt <= now <= lib.plusDays(issuedAt, VALIDITY_DAYS)
  }

  /** The certificate has a signature, is not revoked, and neither of its dates rules the time out. */
  predicate Passes(lib: Library, p: Pki, c: Certificate, now: int) {
    var from, to := lib.dateOf(c.notBefore), lib.dateOf(c.notAfter);
    && c.signature != [] && c.serialNumber !in p.crl
    && (from.Some? ==> from.value <= now) && (to.Some? ==> now <= to.value)
  }

  /** When verifyCertificate gives each of its answers, for any certificate. */
  lemma {:induction false} AnswersExactly(lib: Library, p: Pki, c: Certificate, now: int)
    ensures var v := Verify(lib, p, c, now);
            var from, to := lib.dateOf(c.notBefore), lib.dateOf(c.notAfter);
            var signed := Signed(CaPublic(lib, p), SignedBytes(c), Hex.Decode(c.signature)) in p.ledger;
            var unlisted := c.signature != [] && c.serialNumber !in p.crl;
            && (v == BadFormat <==> c.signature == [])
            && (v == Revoked <==> c.signature != [] && c.serialNumber in p.crl)
            && (v == NotYetValid <==> unlisted && from.Some? && now < from.value)
            && (v == Expired <==> unlisted && (from.Some? ==> from.value <= now) && to.Some? && now > to.value)
            && (v == BadSignature <==> Passes(lib, p, c, now) && !signed)
            && (v == Valid <==> Passes(lib, p, c, now) && signed)
  {
    hide SignedBytes, Hex.Decode;
  }

  /** What a certificate that the authority's present key has signed verifies as: the first test it fails. */
  lemma {:induction false} SignedAnswersExactly(lib: Library, p: Pki, c: Certificate, sig: Bytes, from: int, to: int,
                                                now: int)
    requires lib.DateLaw() && IsDate(from) && IsDate(to) && sig != []
    requires c.notBefore == lib.isoOf(from) && c.notAfter == lib.isoOf(to) && c.signature == Hex.Encode(sig)
    requires Verifies(p.ledger, CaPublic(lib, p), SignedBytes(c), sig)
    ensures Verify(lib, p, c, now)
         == if c.serialNumber in p.crl then Revoked
            else if now < from then NotYetValid
            else if now > to then Expired
            else Valid
  {
    hide Hex.Encode, Hex.Decode, SignedBytes;
    Hex.RoundTrip(sig);
    assert |c.signature| == 2 * |sig|;
  }

  /**
   * A certificate that the authority's present key has signed, stored and loaded, verifies exactly while it is
   * unrevoked and inside its dates.
   */
  lemma {:induction false} SignedIsValidExactly(lib: Library, p: Pki, serial: int, subject: JsString,
                                                publicKey: JsString, issuedAt: int, sig: Bytes, now: int)
    requires lib.DateLaw() && Datable(lib, issuedAt) && sig != []
    requires var c := NewCertificate(lib, serial, subject, publicKey, issuedAt, sig);
             Verifies(p.ledger, CaPublic(lib, p), SignedBytes(c), sig)
    ensures var c := NewCertificate(lib, serial, subject, publicKey, issuedAt, sig);
            StoredIsValid(lib, p, Stored(c), now) <==> Current(lib, p, serial, issuedAt, now)
  {
    hide Load, Stored, Hex.Encode, Verify, SignedBytes;
    var c := NewCertificate(lib, serial, subject, publicKey, issuedAt, sig);
    LoadInvertsStored(c);
    SignedAnswersExactly(lib, p, c, sig, issuedAt, lib.plusDays(issuedAt, VALIDITY_DAYS), now);
  }

  /**
   * The authority's own certificate names it twice over its own new key, under serial 1000 and for ten years, and
   * verifies under that key exactly while it is unrevoked and inside those dates.
   */
  lemma {:induction false} CaCertificateVerifies(lib: Library, p: Pki, nodes: seq<Node>, b: Start, now: int)
    requires GoodStart(b) && lib.DateLaw() && IsDate(b.now) && IsDate(lib.plusYears(b.now, 10)) && b.caSignature != []
    ensures var q := Initialize(lib, p, nodes, b).0;
            var name: JsString := Literal("DarkTunnel-CA");
            var c := Certificate(1000, name, lib.publicOf(b.caPrivate), lib.isoOf(b.now),
                                 lib.isoOf(lib.plusYears(b.now, 10)), Hex.Encode(b.caSignature));
            && Get(Whole(c), Literal("issuer")) == Some(Str(c.subject))
            && Verify(lib, q, c, now)
               == if 1000 in CrlFrom(p.crlFile) then Revoked
                  else if now < b.now then NotYetValid
                  else if now > lib.plusYears(b.now, 10) then Expired
                  else Valid
  {
    hide Hex.Encode, Verify, SignedBytes, CrlFrom, InitializeNodes, Whole;
    var c := CaCertificate(lib, b);
    WholeFields(c);
    var started := Pki(true, b.caPrivate, CA_SERIAL + 1, CrlFrom(p.crlFile), p.crlFile, p.ledger);
    NodesKeepAuthority(lib, SignCertificate(lib, started, c, b.caSignature), nodes, b);
    SignedAnswersExactly(lib, Initialize(lib, p, nodes, b).0, c, b.caSignature, b.now, lib.plusYears(b.now, 10), now);
  }

  /** Making the relay nodes changes neither the key nor the list, and only adds signatures. */
  lemma {:induction false} NodesKeepAuthority(lib: Library, p: Pki, nodes: seq<Node>, b: Start)
    requires GoodStart(b)
    ensures var q := InitializeNodes(lib, p, nodes, b).0;
            q.caPrivate == p.caPrivate && q.crl == p.crl && p.ledger <= q.ledger
  {
    hide Load, Stored, SignedBytes;
    if |nodes| < 3 {
      AddingKeepsAuthority(lib, p, nodes, b, 0);
    }
  }

  lemma {:induction false} AddingKeepsAuthority(lib: Library, p: Pki, nodes: seq<Node>, b: Start, i: nat)
    requires GoodStart(b) && i <= |RELAY_NODES|
    ensures var q := AddNodes(lib, p, nodes, b, i).0;
            q.caPrivate == p.caPrivate && q.crl == p.crl && p.ledger <= q.ledger
    decreases |RELAY_NODES| - i
  {
    hide Load, Stored, SignedBytes, Hex.Encode;
    if i < |RELAY_NODES| && b.stop != 2 * i {
      var publicKey := lib.publicOf(b.nodeKeys[i]);
      var (q, c) := Issue(lib, p, RELAY_NODES[i], publicKey, b.now, b.nodeSignatures[i]);
      if c.Some? {
        AddingKeepsAuthority(lib, q, nodes + [Node(RELAY_NODES[i], publicKey, b.nodeKeys[i], Stored(c.value))], b, i + 1);
      }
    }
  }

  /** A valid certificate is unrevoked, and the authority's present key has signed these very fields. */
  lemma {:induction false} ValidWasSigned(lib: Library, p: Pki, c: Certificate, now: int)
    requires Verify(lib, p, c, now) == Valid
    ensures c.serialNumber !in p.crl
    ensures Signed(CaPublic(lib, p), SignedBytes(c), Hex.Decode(c.signature)) in p.ledger
  {
  }
}
