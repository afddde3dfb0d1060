/** pki_utils: certificate dictionaries, what is signed of them, and their verification. */
module PyCertificates {
  import opened Prelude
  import opened Json
  import opened PyCrypto
  import opened PyLibraries
  import opened Records
  import opened Signing
  import Base64
  import CanonicalJson
  import Decimal
  import PyText
  import Schema
  import Stringify
  import Utf8

  const SUBJECT: Text := Literal("subject")
  const PUBLIC_KEY: Text := Literal("public_key")
  const ISSUER: Text := Literal("issuer")
  const SERIAL: Text := Literal("serial")
  const NOT_BEFORE: Text := Literal("not_before")
  const NOT_AFTER: Text := Literal("not_after")
  const KEY_TYPE: Text := Literal("key_type")
  const SIGNATURE: Text := Literal("signature")

  const NAMES := [SUBJECT, PUBLIC_KEY, ISSUER, SERIAL, NOT_BEFORE, NOT_AFTER, KEY_TYPE, SIGNATURE]

  const DAY := 86400 * TICKS

  lemma {:induction false} NamesDiffer()
    ensures AllDifferent(NAMES)
  {
    assert PUBLIC_KEY[0] == 112 && NOT_BEFORE[0] == 110 && ISSUER[0] == 105 && SERIAL[0] == 115;
    assert NOT_AFTER[0] == 110 && SIGNATURE[0] == 115;
  }

  // --- Dictionaries ----------------------------------------------------------------------------------

  /** d with d[name] = v: in its old place, or at the end. */
  function Put(d: Fields, name: Text, v: JSON): (r: Fields)
    ensures Keys(r) == Keys(d) + {name}
  {
    if d.FNil? then FCons(name, v, FNil)
    else if d.key == name && name !in Keys(d.rest) then FCons(name, v, d.rest)
    else FCons(d.key, d.val, Put(d.rest, name, v))
  }

  lemma {:induction false} GetPut(d: Fields, name: Text, v: JSON, q: Text)
    ensures Get(Put(d, name, v), q) == if q == name then Some(v) else Get(d, q)
  {
    if d.FCons? {
      GetPut(d.rest, name, v, q);
    }
  }

  lemma {:induction false} RemovePut(d: Fields, name: Text, v: JSON)
    ensures Remove(Put(d, name, v), name) == Remove(d, name)
  {
    if d.FCons? && !(d.key == name && name !in Keys(d.rest)) {
      RemovePut(d.rest, name, v);
    }
  }

  lemma {:induction false} PutFits(d: Fields, name: Text, v: JSON)
    requires FieldsFit(Python, d) && StringFits(Python, name) && Fits(Python, v)
    ensures FieldsFit(Python, Put(d, name, v))
  {
    if d.FCons? {
      PutFits(d.rest, name, v);
    }
  }

  lemma {:induction false} RemoveFits(d: Fields, name: Text)
    requires FieldsFit(Python, d)
    ensures FieldsFit(Python, Remove(d, name))
  {
    if d.FCons? {
      RemoveFits(d.rest, name);
    }
  }

  // --- create_cert -----------------------------------------------------------------------------------

  function CertificateValues(lib: Library, subject: Text, key: Text, issuer: JSON, serial: int, days: int, keyType: Text,
                             now: int): (values: seq<JSON>)
    ensures |values| == 8
  {
    [Str(subject), Str(key), issuer, Num(Decimal.OfInt(serial)), Num(lib.floatText(now)),
     Num(lib.floatText(now + days * DAY)), Str(keyType), Str([])]
  }

  function CreateCert(lib: Library, subject: Text, pem: Bytes, issuer: JSON, serial: int, days: int, now: int)
    : (c: Result<Fields, Failure>)
  {
    if PyText.IsBlank(subject) || |subject| > 256 then Err(BadSubject)
    else if serial <= 0 then Err(BadSerial)
    else if days < 1 || days > 3650 then Err(BadValidity)
    else match PyText.Decode(pem)
      case None => Err(BadKey)
      case Some(key) =>
        var keyType := lib.publicType(pem);
        if keyType != Some(RSA) && keyType != Some(ECC) then Err(BadKey)
        else Ok(Record(NAMES, CertificateValues(lib, subject, key, issuer, serial, days, keyType.value, now)))
  }

  lemma {:induction false} CreatedFields(lib: Library, subject: Text, pem: Bytes, issuer: JSON, serial: int, days: int,
                                         now: int)
    requires CreateCert(lib, subject, pem, issuer, serial, days, now).Ok?
    ensures var c := CreateCert(lib, subject, pem, issuer, serial, days, now).value;
            && Get(c, SUBJECT) == Some(Str(subject)) && Get(c, ISSUER) == Some(issuer)
            && Get(c, PUBLIC_KEY) == Some(Str(PyText.Decode(pem).value))
            && Get(c, SERIAL) == Some(Num(Decimal.OfInt(serial)))
            && Get(c, NOT_BEFORE) == Some(Num(lib.floatText(now)))
            && Get(c, NOT_AFTER) == Some(Num(lib.floatText(now + days * DAY)))
            && Get(c, KEY_TYPE) == Some(Str(lib.publicType(pem).value)) && Get(c, SIGNATURE) == Some(Str([]))
  {
    hide PyText.Decode, Decimal.OfInt;
    NamesDiffer();
    var values := CertificateValues(lib, subject, PyText.Decode(pem).value, issuer, serial, days,
                                    lib.publicType(pem).value, now);
    forall i | 0 <= i < 8
      ensures Get(Record(NAMES, values), NAMES[i]) == Some(values[i])
    {
      GetRecord(NAMES, values, i);
    }
    assert Get(Record(NAMES, values), NAMES[0]) == Some(values[0]);
    assert Get(Record(NAMES, values), NAMES[1]) == Some(values[1]);
    assert Get(Record(NAMES, values), NAMES[2]) == Some(values[2]);
    assert Get(Record(NAMES, values), NAMES[3]) == Some(values[3]);
    assert Get(Record(NAMES, values), NAMES[4]) == Some(values[4]);
    assert Get(Record(NAMES, values), NAMES[5]) == Some(values[5]);
    assert Get(Record(NAMES, values), NAMES[6]) == Some(values[6]);
    assert Get(Record(NAMES, values), NAMES[7]) == Some(values[7]);
  }

  lemma {:induction false} CreatedFits(lib: Library, subject: Text, pem: Bytes, issuer: JSON, serial: int, days: int,
                                       now: int)
    requires lib.FloatLaw() && NoSplitPair(subject) && Fits(Python, issuer)
    requires CreateCert(lib, subject, pem, issuer, serial, days, now).Ok?
    ensures FieldsFit(Python, CreateCert(lib, subject, pem, issuer, serial, days, now).value)
  {
    hide PyText.Decode, Decimal.OfInt, IsNumber;
    NamesDiffer();
    PyText.EncodeInvertsDecode(pem);
    IntegerIsNumber(serial);
    RecordFits(Python, NAMES,
      CertificateValues(lib, subject, PyText.Decode(pem).value, issuer, serial, days, lib.publicType(pem).value, now));
  }

  // --- sign_certificate ------------------------------------------------------------------------------

  /** The bytes that are signed: the canonical JSON of every field but the signature. */
  function SignedContent(c: Fields): (b: Bytes) {
    Utf8.Encode(CanonicalJson.Canonical(Obj(Remove(c, SIGNATURE))))
  }

  /** The certificate with the signature stored in it. */
  function WithSignature(c: Fields, signature: Bytes): (r: Fields) {
    Put(c, SIGNATURE, Str(Base64.Encode(signature)))
  }

  /** Equal as dictionaries, but for the signature. */
  predicate SameBody(a: Fields, b: Fields) {
    CanonicalJson.Same(Obj(Remove(a, SIGNATURE)), Obj(Remove(b, SIGNATURE)))
  }

  lemma {:induction false} SigningKeepsBody(c: Fields, signature: Bytes)
    ensures SignedContent(WithSignature(c, signature)) == SignedContent(c)
    ensures Get(WithSignature(c, signature), SIGNATURE) == Some(Str(Base64.Encode(signature)))
    ensures forall q | q != SIGNATURE :: Get(WithSignature(c, signature), q) == Get(c, q)
  {
    hide Base64.Encode;
    RemovePut(c, SIGNATURE, Str(Base64.Encode(signature)));
    forall q
      ensures Get(WithSignature(c, signature), q)
           == if q == SIGNATURE then Some(Str(Base64.Encode(signature))) else Get(c, q)
    {
      GetPut(c, SIGNATURE, Str(Base64.Encode(signature)), q);
    }
  }

  /** The signed bytes determine every field but the signature, whatever the order of the fields. */
  lemma {:induction false} SignedContentBinds(a: Fields, b: Fields)
    requires FieldsFit(Python, a) && FieldsFit(Python, b)
    ensures SignedContent(a) == SignedContent(b) <==> SameBody(a, b)
  {
    var v, w := Obj(Remove(a, SIGNATURE)), Obj(Remove(b, SIGNATURE));
    RemoveFits(a, SIGNATURE);
    RemoveFits(b, SIGNATURE);
    CanonicalJson.CanonFits(Python, v);
    CanonicalJson.CanonFits(Python, w);
    CanonicalJson.PythonPrintsAll(CanonicalJson.Canon(v));
    CanonicalJson.PythonPrintsAll(CanonicalJson.Canon(w));
    Stringify.BytesDecideValue(Python, CanonicalJson.Canon(v), CanonicalJson.Canon(w));
    CanonicalJson.FitsIsDistinct(Python, v);
    CanonicalJson.FitsIsDistinct(Python, w);
    CanonicalJson.CanonDecidesSame(v, w);
  }

  // --- verify_certificate ----------------------------------------------------------------------------

  /** The answers of verify_certificate; Raises is a KeyError or TypeError on a malformed certificate. */
  datatype Answer = Valid | Expired | NotYetValid | Revoked | BadSignature | Raises

  /** v in crl: numbers are found by value, and lists and objects cannot be looked up. */
  function InCrl(lib: Library, v: JSON, crl: seq<int>): (r: Option<bool>) {
    if v.Arr? || v.Obj? then None
    else
      var x := lib.NumberOf(v);
      Some(x.Some? && exists i | 0 <= i < |crl| :: crl[i] as real == x.value)
  }

  /** rsa_verify: False for a signature that is not a string or not base64. */
  predicate RsaVerify(ledger: Ledger, content: Bytes, signature: JSON, publicKey: Bytes) {
    && signature.Str?
    && var b := Base64.Decode(signature.s);
    b.Some? && Verifies(ledger, publicKey, content, b.value)
  }

  function VerifyCertificate(lib: Library, ledger: Ledger, c: Fields, caPublic: Bytes, crl: Option<seq<int>>, now: int)
    : (a: Answer)
  {
    var clock := now as real / TICKS as real;
    var to := Get(c, NOT_AFTER);
    if to.None? || lib.NumberOf(to.value).None? then Raises
    else if clock > lib.NumberOf(to.value).value then Expired
    else
      var from := Get(c, NOT_BEFORE);
      if from.None? || lib.NumberOf(from.value).None? then Raises
      else if clock < lib.NumberOf(from.value).value then NotYetValid
      else
        var serial := Get(c, SERIAL);
        var listed :=
          if crl.None? then Some(false) else if serial.None? then None else InCrl(lib, serial.value, crl.value);
        if listed.None? then Raises
        else if listed.value then Revoked
        else
          var signature := Get(c, SIGNATURE);
          if signature.None? then Raises
          else if RsaVerify(ledger, SignedContent(c), signature.value, caPublic) then Valid
          else BadSignature
  }

  /** Seconds since the epoch, as the certificate has them. */
  function Seconds(now: int): (x: real) {
    now as real / TICKS as real
  }

  /** The time is between the two dates, both of them numbers. */
  predicate InDates(lib: Library, c: Fields, now: int) {
    var from, to := NumberIn(lib, c, Literal("not_before")), NumberIn(lib, c, Literal("not_after"));
    from.Some? && to.Some? && from.value <= Seconds(now) <= to.value
  }

  /** There is no list, or the serial is a value that can be looked up and none of those on it. */
  predicate Unlisted(lib: Library, c: Fields, crl: Option<seq<int>>) {
    var serial := Get(c, Literal("serial"));
    crl.None? || (serial.Some? && !serial.value.Arr? && !serial.value.Obj? && !Listed(lib, c, crl))
  }

  /** The serial is a number on the list. */
  predicate Listed(lib: Library, c: Fields, crl: Option<seq<int>>) {
    crl.Some? && exists k | k in crl.value :: NumberIn(lib, c, Literal("serial")) == Some(k as real)
  }

  /** The signature field is base64 for a signature of the other fields by this key. */
  predicate SignedBy(ledger: Ledger, c: Fields, caPublic: Bytes) {
    var signature := BytesAt(c, Literal("signature"));
    signature.Ok? && Signed(caPublic, SignedContent(c), signature.value) in ledger
  }

  lemma {:induction false} ListedExactly(lib: Library, c: Fields, crl: seq<int>)
    requires Get(c, SERIAL).Some? && !Get(c, SERIAL).value.Arr? && !Get(c, SERIAL).value.Obj?
    ensures InCrl(lib, Get(c, SERIAL).value, crl) == Some(Listed(lib, c, Some(crl)))
  {
    hide Literal, Decimal.ToInt;
    var x := NumberIn(lib, c, SERIAL);
    if k :| k in crl && x == Some(k as real) {
      var i :| 0 <= i < |crl| && crl[i] == k;
      assert crl[i] as real == x.value;
    } else if x.Some? {
      forall i | 0 <= i < |crl|
        ensures crl[i] as real != x.value
      {
        assert crl[i] in crl;
      }
    }
  }

  /** When verify_certificate gives each of its answers, for any dictionary, with or without a list. */
  lemma {:induction false} AnswersExactly(lib: Library, ledger: Ledger, c: Fields, caPublic: Bytes,
                                          crl: Option<seq<int>>, now: int)
    ensures var a := VerifyCertificate(lib, ledger, c, caPublic, crl, now);
            var from, to := NumberIn(lib, c, Literal("not_before")), NumberIn(lib, c, Literal("not_after"));
            && (a == Expired <==> to.Some? && Seconds(now) > to.value)
            && (a == NotYetValid <==> to.Some? && Seconds(now) <= to.value && from.Some? && Seconds(now) < from.value)
            && (a == Revoked <==> InDates(lib, c, now) && Listed(lib, c, crl))
            && (a == Answer.Valid <==>
                InDates(lib, c, now) && Unlisted(lib, c, crl) && SignedBy(ledger, c, caPublic))
            && (a == BadSignature <==>
                && InDates(lib, c, now) && Unlisted(lib, c, crl) && Literal("signature") in Keys(c)
                && !SignedBy(ledger, c, caPublic))
  {
    hide SignedContent, Base64.Decode, Literal, Decimal.ToInt, InCrl, Listed;
    var serial := Get(c, SERIAL);
    if crl.Some? && serial.Some? && !serial.value.Arr? && !serial.value.Obj? {
      ListedExactly(lib, c, crl.value);
    } else {
      NotListed(lib, c, crl);
    }
  }

  lemma {:induction false} NotListed(lib: Library, c: Fields, crl: Option<seq<int>>)
    requires crl.None? || Get(c, SERIAL).None? || Get(c, SERIAL).value.Arr? || Get(c, SERIAL).value.Obj?
    ensures !Listed(lib, c, crl)
    ensures crl.Some? && Get(c, SERIAL).Some? ==> InCrl(lib, Get(c, SERIAL).value, crl.value).None?
  {
    hide Literal;
  }

  /** What a signed certificate verifies as at any time, against any list: exactly the first test it fails. */
  lemma {:induction false} SignedVerifiesExactly(lib: Library, ledger: Ledger, subject: Text, pem: Bytes, issuer: JSON,
                                                 serial: int, days: int, issuedAt: int, signature: Bytes,
                                                 caPublic: Bytes, crl: seq<int>, now: int)
    requires lib.FloatLaw() && CreateCert(lib, subject, pem, issuer, serial, days, issuedAt).Ok?
    requires var c := CreateCert(lib, subject, pem, issuer, serial, days, issuedAt).value;
             Verifies(ledger, caPublic, SignedContent(c), signature)
    ensures var c := CreateCert(lib, subject, pem, issuer, serial, days, issuedAt).value;
            VerifyCertificate(lib, ledger, WithSignature(c, signature), caPublic, Some(crl), now)
            == if now > issuedAt + days * DAY then Expired
               else if now < issuedAt then NotYetValid
               else if serial in crl then Revoked
               else Valid
  {
    hide Base64.Encode, Base64.Decode, SignedContent, CreateCert, WithSignature, Decimal.OfInt, VerifyCertificate;
    var c := CreateCert(lib, subject, pem, issuer, serial, days, issuedAt).value;
    CreatedFields(lib, subject, pem, issuer, serial, days, issuedAt);
    SigningKeepsBody(c, signature);
    NamesDiffer();
    assert NAMES[3] != NAMES[7] && NAMES[4] != NAMES[7] && NAMES[5] != NAMES[7];
    SignedFieldsVerify(lib, ledger, WithSignature(c, signature), serial, days, issuedAt, signature, caPublic, crl, now);
  }

  lemma {:induction false} SignedFieldsVerify(lib: Library, ledger: Ledger, c: Fields, serial: int, days: int,
                                              issuedAt: int, signature: Bytes, caPublic: Bytes, crl: seq<int>, now: int)
    requires lib.FloatLaw() && Verifies(ledger, caPublic, SignedContent(c), signature)
    requires Get(c, SERIAL) == Some(Num(Decimal.OfInt(serial)))
    requires Get(c, NOT_BEFORE) == Some(Num(lib.floatText(issuedAt)))
    requires Get(c, NOT_AFTER) == Some(Num(lib.floatText(issuedAt + days * DAY)))
    requires Get(c, SIGNATURE) == Some(Str(Base64.Encode(signature)))
    ensures VerifyCertificate(lib, ledger, c, caPublic, Some(crl), now)
            == if now > issuedAt + days * DAY then Expired
               else if now < issuedAt then NotYetValid
               else if serial in crl then Revoked
               else Valid
  {
    hide Base64.Encode, Base64.Decode, SignedContent, Decimal.OfInt, Decimal.ToInt, IsNumber, InCrl, Literal;
    Base64.RoundTrip(signature);
    SerialListed(lib, serial, crl);
    FloatReads(lib, issuedAt);
    FloatReads(lib, issuedAt + days * DAY);
  }

  lemma {:induction false} SerialListed(lib: Library, serial: int, crl: seq<int>)
    ensures InCrl(lib, Num(Decimal.OfInt(serial)), crl) == Some(serial in crl)
  {
    hide Decimal.OfInt, Decimal.ToInt;
    IntNumber(lib, serial);
  }

  lemma {:induction false} FloatReads(lib: Library, n: int)
    requires lib.FloatLaw()
    ensures lib.NumberOf(Num(lib.floatText(n))) == Some(n as real / TICKS as real)
  {
    hide IsNumber, Decimal.ToInt;
    assert lib.floatOf(lib.floatText(n)) == n as real / TICKS as real;
  }

  /** The schema accepts a created and signed certificate exactly when its key file starts as PEM, spaces aside. */
  lemma {:induction false} SignedIsAcceptedExactly(lib: Library, subject: Text, pem: Bytes, issuer: JSON, serial: int,
                                                   days: int, issuedAt: int, signature: Bytes)
    requires lib.FloatLaw() && CreateCert(lib, subject, pem, issuer, serial, days, issuedAt).Ok?
    ensures var c := CreateCert(lib, subject, pem, issuer, serial, days, issuedAt).value;
            Schema.ValidateCertificate(lib, WithSignature(c, signature))
            == if PEM_BEGIN <= PyText.StripLeft(PyText.Decode(pem).value) then Schema.Valid
               else Schema.Invalid("public_key must be a valid PEM string")
  {
    assert PyText.Decode(pem).Some?;
    hide PyText.Decode, PyText.StripLeft, Base64.Encode, Base64.Decode, CreateCert, WithSignature;
    hide Schema.CertificateProblems, Schema.First;
    var c := CreateCert(lib, subject, pem, issuer, serial, days, issuedAt).value;
    var problems := Schema.CertificateProblems(lib, WithSignature(c, signature));
    SignedProblems(lib, subject, pem, issuer, serial, days, issuedAt, signature);
    if PEM_BEGIN <= PyText.StripLeft(PyText.Decode(pem).value) {
      Schema.FirstIsValidExactly(problems);
    } else {
      Schema.FirstIs(problems, 4);
    }
  }

  lemma {:induction false} SignedProblems(lib: Library, subject: Text, pem: Bytes, issuer: JSON, serial: int, days: int,
                                          issuedAt: int, signature: Bytes)
    requires lib.FloatLaw() && CreateCert(lib, subject, pem, issuer, serial, days, issuedAt).Ok?
    requires PyText.Decode(pem).Some?
    ensures var c := CreateCert(lib, subject, pem, issuer, serial, days, issuedAt).value;
            OnlyPemProblem(Schema.CertificateProblems(lib, WithSignature(c, signature)), PyText.Decode(pem).value)
  {
    hide WithSignature, PyText.Decode, Schema.CertificateProblems, OnlyPemProblem, CreateCert, Base64.Encode;
    var c := CreateCert(lib, subject, pem, issuer, serial, days, issuedAt).value;
    CreatedIsAcceptable(lib, subject, pem, issuer, serial, days, issuedAt);
    SignedFields(lib, subject, pem, issuer, serial, days, issuedAt, signature);
    ProblemsOf(lib, WithSignature(c, signature), subject, PyText.Decode(pem).value, serial, days,
               lib.publicType(pem).value, issuedAt, signature);
  }

  lemma {:induction false} CreatedIsAcceptable(lib: Library, subject: Text, pem: Bytes, issuer: JSON, serial: int,
                                               days: int, issuedAt: int)
    requires CreateCert(lib, subject, pem, issuer, serial, days, issuedAt).Ok?
    ensures serial > 0 && !PyText.IsBlank(subject) && |subject| <= 256 && days >= 1 && PyText.Decode(pem).Some?
    ensures lib.publicType(pem) == Some(RSA) || lib.publicType(pem) == Some(ECC)
  {
    hide PyText.Decode;
  }

  /** The fields of a created certificate once it is signed. */
  lemma {:induction false} SignedFields(lib: Library, subject: Text, pem: Bytes, issuer: JSON, serial: int, days: int,
                                        issuedAt: int, signature: Bytes)
    requires CreateCert(lib, subject, pem, issuer, serial, days, issuedAt).Ok? && PyText.Decode(pem).Some?
    requires lib.publicType(pem).Some?
    ensures var c := WithSignature(CreateCert(lib, subject, pem, issuer, serial, days, issuedAt).value, signature);
            && Get(c, SERIAL) == Some(Num(Decimal.OfInt(serial))) && Get(c, SUBJECT) == Some(Str(subject))
            && Get(c, KEY_TYPE) == Some(Str(lib.publicType(pem).value))
            && Get(c, PUBLIC_KEY) == Some(Str(PyText.Decode(pem).value))
            && Get(c, NOT_BEFORE) == Some(Num(lib.floatText(issuedAt)))
            && Get(c, NOT_AFTER) == Some(Num(lib.floatText(issuedAt + days * DAY)))
            && Get(c, SIGNATURE) == Some(Str(Base64.Encode(signature)))
  {
    hide Base64.Encode, WithSignature, PyText.Decode, CreateCert, Decimal.OfInt;
    CreatedFields(lib, subject, pem, issuer, serial, days, issuedAt);
    SigningKeepsBody(CreateCert(lib, subject, pem, issuer, serial, days, issuedAt).value, signature);
    NamesDiffer();
    assert NAMES[0] != NAMES[7] && NAMES[1] != NAMES[7] && NAMES[3] != NAMES[7] && NAMES[4] != NAMES[7]
        && NAMES[5] != NAMES[7] && NAMES[6] != NAMES[7];
  }

  /** What a certificate says, field by field; it holds no other fields. */
  predicate Says(lib: Library, c: Fields, subject: Text, key: Text, issuer: JSON, serial: int, from: int, days: int,
                 keyType: Text, signature: Bytes)
  {
    && Get(c, Literal("subject")) == Some(Str(subject)) && Get(c, Literal("public_key")) == Some(Str(key))
    && Get(c, Literal("issuer")) == Some(issuer) && Get(c, Literal("serial")) == Some(Num(Decimal.OfInt(serial)))
    && NumberIn(lib, c, Literal("not_before")) == Some(Seconds(from))
    && NumberIn(lib, c, Literal("not_after")) == Some(Seconds(from) + 86400.0 * days as real)
    && Get(c, Literal("key_type")) == Some(Str(keyType))
    && BytesAt(c, Literal("signature")) == Ok(signature)
    && forall k | k in Keys(c) :: k in NAMES
  }

  /** A created and signed certificate says what create_cert was given. */
  lemma {:induction false} SignedSays(lib: Library, subject: Text, pem: Bytes, issuer: JSON, serial: int, days: int,
                                      issuedAt: int, signature: Bytes)
    requires lib.FloatLaw() && CreateCert(lib, subject, pem, issuer, serial, days, issuedAt).Ok?
    ensures PyText.Decode(pem).Some? && lib.publicType(pem).Some?
    ensures Says(lib, WithSignature(CreateCert(lib, subject, pem, issuer, serial, days, issuedAt).value, signature), subject,
                 PyText.Decode(pem).value, issuer, serial, issuedAt, days, lib.publicType(pem).value, signature)
  {
    hide WithSignature, PyText.Decode, CreateCert, Decimal.OfInt, IsNumber, Base64.Encode, Base64.Decode, Keys, Seconds;
    CreatedIsAcceptable(lib, subject, pem, issuer, serial, days, issuedAt);
    var c := WithSignature(CreateCert(lib, subject, pem, issuer, serial, days, issuedAt).value, signature);
    SignedFields(lib, subject, pem, issuer, serial, days, issuedAt, signature);
    CreatedIssuer(lib, subject, pem, issuer, serial, days, issuedAt, signature);
    DatesRead(lib, issuedAt, days);
    BytesAtEncoded(c, SIGNATURE, signature);
    forall k | k in Keys(c)
      ensures k in NAMES
    {
      CreatedNames(lib, subject, pem, issuer, serial, days, issuedAt, signature, k);
    }
  }

  lemma {:induction false} DatesRead(lib: Library, from: int, days: int)
    requires lib.FloatLaw()
    ensures lib.NumberOf(Num(lib.floatText(from))) == Some(Seconds(from))
    ensures lib.NumberOf(Num(lib.floatText(from + days * DAY))) == Some(Seconds(from) + 86400.0 * days as real)
  {
    hide IsNumber, Decimal.ToInt;
    FloatReads(lib, from);
    FloatReads(lib, from + days * DAY);
  }

  lemma {:induction false} CreatedIssuer(lib: Library, subject: Text, pem: Bytes, issuer: JSON, serial: int, days: int,
                                         issuedAt: int, signature: Bytes)
    requires CreateCert(lib, subject, pem, issuer, serial, days, issuedAt).Ok?
    ensures Get(WithSignature(CreateCert(lib, subject, pem, issuer, serial, days, issuedAt).value, signature), ISSUER)
         == Some(issuer)
  {
    hide CreateCert, WithSignature;
    CreatedFields(lib, subject, pem, issuer, serial, days, issuedAt);
    SigningKeepsBody(CreateCert(lib, subject, pem, issuer, serial, days, issuedAt).value, signature);
    NamesDiffer();
    assert NAMES[2] != NAMES[7];
  }

  lemma {:induction false} CreatedNames(lib: Library, subject: Text, pem: Bytes, issuer: JSON, serial: int, days: int,
                                        issuedAt: int, signature: Bytes, k: Text)
    requires CreateCert(lib, subject, pem, issuer, serial, days, issuedAt).Ok?
    requires k in Keys(WithSignature(CreateCert(lib, subject, pem, issuer, serial, days, issuedAt).value, signature))
    ensures k in NAMES
  {
    hide PyText.Decode, Decimal.OfInt, Base64.Encode;
    RecordKeys(NAMES, CertificateValues(lib, subject, PyText.Decode(pem).value, issuer, serial, days,
                                        lib.publicType(pem).value, issuedAt), k);
    assert SIGNATURE == NAMES[7];
  }

  /** No problem but a key text that does not start as PEM. */
  predicate OnlyPemProblem(ps: seq<Option<string>>, key: Text)
    requires |ps| == 10
  {
    && (forall i | 0 <= i < 10 && i != 4 :: ps[i].None?)
    && ps[4] == if PEM_BEGIN <= PyText.StripLeft(key) then None else Some("public_key must be a valid PEM string")
  }

  lemma {:induction false} ProblemsOf(lib: Library, d: Fields, subject: Text, key: Text, serial: int, days: int,
                                      keyType: Text, issuedAt: int, signature: Bytes)
    requires lib.FloatLaw() && serial > 0 && !PyText.IsBlank(subject) && |subject| <= 256 && days >= 1
    requires keyType == RSA || keyType == ECC
    requires Get(d, SERIAL) == Some(Num(Decimal.OfInt(serial))) && Get(d, SUBJECT) == Some(Str(subject))
    requires Get(d, KEY_TYPE) == Some(Str(keyType)) && Get(d, PUBLIC_KEY) == Some(Str(key))
    requires Get(d, NOT_BEFORE) == Some(Num(lib.floatText(issuedAt)))
    requires Get(d, NOT_AFTER) == Some(Num(lib.floatText(issuedAt + days * DAY)))
    requires Get(d, SIGNATURE) == Some(Str(Base64.Encode(signature)))
    ensures OnlyPemProblem(Schema.CertificateProblems(lib, d), key)
  {
    hide Base64.Encode, Base64.Decode, PyText.StripLeft, IsNumber, Literal, Get, Decimal.OfInt, PyText.IsBlank;
    Base64.RoundTrip(signature);
    Decimal.RoundTrip(serial);
    FloatsAscend(lib, issuedAt, days);
  }

  lemma {:induction false} FloatsAscend(lib: Library, issuedAt: int, days: int)
    requires lib.FloatLaw() && days >= 1
    ensures var from := lib.NumberOf(Num(lib.floatText(issuedAt)));
            var to := lib.NumberOf(Num(lib.floatText(issuedAt + days * DAY)));
            from.Some? && to.Some? && from.value < to.value
  {
    hide IsNumber, Decimal.ToInt;
    FloatReads(lib, issuedAt);
    FloatReads(lib, issuedAt + days * DAY);
  }
}
