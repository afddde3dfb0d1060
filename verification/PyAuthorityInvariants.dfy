/** What every call of the authority keeps, wherever it stops. */
module PyAuthorityInvariants {
  import opened Prelude
  import opened Json
  import opened PyAuthority
  import opened PyCertificates
  import opened PyCrypto
  import opened PyLibraries
  import opened Signing
  import Base64
  import Decimal
  import Indented
  import KeyStore
  import PyText

  // --- The certificates signed so far ----------------------------------------------------------------

  function SerialOf(c: Fields): (n: int) {
    match Get(c, SERIAL)
    case Some(Num(token)) => var n := Decimal.ToInt(token); if n.Some? then n.value else 0
    case _ => 0
  }

  /** In the order of signing serials increase, except that each initialisation signs a 1 with a new key. */
  predicate Ordered(made: seq<Made>) {
    forall i, j | 0 <= i < j < |made| ::
      || SerialOf(made[i].cert) < SerialOf(made[j].cert)
      || (SerialOf(made[i].cert) == SerialOf(made[j].cert) == 1 && made[i].caPublic != made[j].caPublic)
  }

  predicate InRange(made: seq<Made>, next: int) {
    forall i | 0 <= i < |made| ::
      FieldsFit(Python, made[i].cert) && (SerialOf(made[i].cert) == 1 || FIRST_SERIAL <= SerialOf(made[i].cert) < next)
  }

  lemma {:induction false} AddRoot(made: seq<Made>, m: Made)
    requires Ordered(made) && InRange(made, FIRST_SERIAL)
    requires SerialOf(m.cert) == 1 && FieldsFit(Python, m.cert)
    requires forall i | 0 <= i < |made| :: made[i].caPublic != m.caPublic
    ensures Ordered(made + [m]) && InRange(made + [m], FIRST_SERIAL)
  {
  }

  lemma {:induction false} AddIssued(made: seq<Made>, next: int, m: Made)
    requires Ordered(made) && InRange(made, next) && next >= FIRST_SERIAL
    requires SerialOf(m.cert) == next && FieldsFit(Python, m.cert)
    ensures Ordered(made + [m]) && InRange(made + [m], next + 1)
  {
  }

  /** The signing of e is that of a certificate this code made. */
  predicate Explained(made: seq<Made>, e: Signed) {
    exists i | 0 <= i < |made| ::
      && made[i].caPublic == e.publicKey && SignedContent(made[i].cert) == e.data
      && BytesAt(made[i].cert, SIGNATURE) == Ok(e.signature)
  }

  predicate LedgerExplained(s: State, key: Bytes) {
    forall e | e in s.ledger && e.publicKey == key :: Explained(s.made, e)
  }

  lemma {:induction false} StaysExplained(made: seq<Made>, m: Made, e: Signed)
    requires Explained(made, e)
    ensures Explained(made + [m], e)
  {
    var i :| 0 <= i < |made| && made[i].caPublic == e.publicKey && SignedContent(made[i].cert) == e.data
             && BytesAt(made[i].cert, SIGNATURE) == Ok(e.signature);
    assert (made + [m])[i] == made[i];
  }

  /** Signing a certificate with any key keeps the ledger explained for every key. */
  lemma {:induction false} SignWithKeeps(lib: Library, s: State, c: Fields, privateKey: Bytes, signature: Bytes,
                                         key: Bytes)
    requires LedgerExplained(s, key) && SignWith(lib, s, c, privateKey, signature).1.Ok?
    ensures LedgerExplained(SignWith(lib, s, c, privateKey, signature).0, key)
  {
    hide SignedContent, WithSignature, BytesAt, Explained;
    var (t, r) := SignWith(lib, s, c, privateKey, signature);
    var m := Made(lib.publicOf(privateKey), r.value);
    var entry := Signed(lib.publicOf(privateKey), SignedContent(c), signature);
    NewIsExplained(s.made, c, lib.publicOf(privateKey), signature);
    forall e | e in t.ledger && e.publicKey == key
      ensures Explained(t.made, e)
    {
      if e != entry {
        StaysExplained(s.made, m, e);
      }
    }
  }

  lemma {:induction false} NewIsExplained(made: seq<Made>, c: Fields, caPublic: Bytes, signature: Bytes)
    ensures Explained(made + [Made(caPublic, WithSignature(c, signature))], Signed(caPublic, SignedContent(c), signature))
  {
    hide SignedContent, WithSignature, Base64.Encode;
    SigningKeepsBody(c, signature);
    BytesAtEncoded(WithSignature(c, signature), SIGNATURE, signature);
    var m := Made(caPublic, WithSignature(c, signature));
    assert (made + [m])[|made|] == m;
  }

  lemma {:induction false} WithSignatureFits(c: Fields, signature: Bytes)
    requires FieldsFit(Python, c)
    ensures FieldsFit(Python, WithSignature(c, signature))
  {
    hide Base64.Encode;
    PutFits(c, SIGNATURE, Str(Base64.Encode(signature)));
  }

  /** The signed form of a created certificate. */
  lemma {:induction false} SignedForm(lib: Library, subject: Text, pem: Bytes, issuer: JSON, serial: int, days: int,
                                      now: int, signature: Bytes)
    requires lib.FloatLaw() && NoSplitPair(subject) && Fits(Python, issuer)
    requires CreateCert(lib, subject, pem, issuer, serial, days, now).Ok?
    ensures var c := WithSignature(CreateCert(lib, subject, pem, issuer, serial, days, now).value, signature);
            && FieldsFit(Python, c) && SerialOf(c) == serial && Get(c, ISSUER) == Some(issuer)
            && Get(c, PUBLIC_KEY) == Some(Str(PyText.Decode(pem).value))
  {
    hide Base64.Encode, CreateCert, Decimal.OfInt, Decimal.ToInt, PyText.Decode, WithSignature, FieldsFit;
    assert PyText.Decode(pem).Some? by { CreatedHasKey(lib, subject, pem, issuer, serial, days, now); }
    var c := CreateCert(lib, subject, pem, issuer, serial, days, now).value;
    CreatedFields(lib, subject, pem, issuer, serial, days, now);
    CreatedFits(lib, subject, pem, issuer, serial, days, now);
    SigningKeepsBody(c, signature);
    WithSignatureFits(c, signature);
    Decimal.RoundTrip(serial);
    NamesDiffer();
    assert NAMES[3] != NAMES[7] && NAMES[2] != NAMES[7] && NAMES[1] != NAMES[7];
  }

  lemma {:induction false} CreatedHasKey(lib: Library, subject: Text, pem: Bytes, issuer: JSON, serial: int, days: int,
                                         now: int)
    requires CreateCert(lib, subject, pem, issuer, serial, days, now).Ok?
    ensures PyText.Decode(pem).Some?
  {
  }

  // --- The files -------------------------------------------------------------------------------------

  /** The key in the authority's own certificate. */
  function RootKey(disk: Disk): (k: Option<Bytes>) {
    match ReadObject(disk.caCert)
    case Ok(root) =>
      (match Get(root, PUBLIC_KEY)
       case Some(Str(pem)) => PyText.Encode(pem)
       case _ => None)
    case Err(_) => None
  }

  /** The authority's certificate reads back, names a text as issuer, and is one this code signed with its key. */
  predicate RootGood(s: State) {
    && ReadObject(s.disk.caCert).Ok? && RootKey(s.disk).Some?
    && var root := ReadObject(s.disk.caCert).value;
    && Get(root, ISSUER).Some? && Fits(Python, Get(root, ISSUER).value)
    && Made(RootKey(s.disk).value, root) in s.made
    && LedgerExplained(s, RootKey(s.disk).value)
  }

  predicate CrlGood(file: Option<Text>) {
    file.Some? ==> LoadCrl(file).Ok? && Ascending(LoadCrl(file).value)
  }

  predicate SerialGood(file: Option<Text>) {
    file.Some? ==>
      && ReadObject(file).Ok? && FieldsFit(Python, ReadObject(file).value)
      && NextSerial(ReadObject(file).value).Ok? && NextSerial(ReadObject(file).value).value >= FIRST_SERIAL
  }

  /** The next serial of a counter file; before there is one, nothing is issued. */
  function NextOf(file: Option<Text>): (n: int)
    requires SerialGood(file)
  {
    if file.None? then FIRST_SERIAL else NextSerial(ReadObject(file).value).value
  }

  predicate Inv(s: State) {
    && (s.disk.caCert.None? ==> s.disk.crl.None? && s.disk.serial.None?)
    && (s.disk.caCert.Some? ==> RootGood(s))
    && CrlGood(s.disk.crl) && SerialGood(s.disk.serial)
    && Ordered(s.made) && InRange(s.made, NextOf(s.disk.serial))
  }

  // --- Every call keeps them -------------------------------------------------------------------------

  /** The state once the key file is written. */
  lemma {:induction false} KeyedKeeps(s: State, text: Text)
    requires Inv(s) && s.disk.caCert.None?
    ensures Inv(s.(disk := s.disk.(key := Some(text))))
  {
  }

  /** The authority's certificate with its own new key, as the invariant wants it. */
  lemma {:induction false} RootIsGood(lib: Library, s: State, t: State, name: Text, r: Fresh, now: int)
    requires lib.Lawful() && NoSplitPair(name) && lib.privateType(r.privateKey) == Some(RSA)
    requires !KeyUsed(s, lib.publicOf(r.privateKey))
    requires var c := CreateCert(lib, name, lib.publicOf(r.privateKey), Str(name), 1, CA_DAYS, now);
             c.Ok? && var root := WithSignature(c.value, r.signature);
             && t.disk.caCert == Some(Indented.Pretty(Obj(root)))
             && t.made == s.made + [Made(lib.publicOf(r.privateKey), root)]
             && t.ledger == Sign(s.ledger, lib.publicOf(r.privateKey), SignedContent(c.value), r.signature)
    ensures RootGood(t) && RootKey(t.disk) == Some(lib.publicOf(r.privateKey))
  {
    hide SignedContent, WithSignature, CreateCert, PyText.Decode, PyText.Encode, Explained, IsNumber;
    var key := lib.publicOf(r.privateKey);
    var c := CreateCert(lib, name, key, Str(name), 1, CA_DAYS, now).value;
    SignedForm(lib, name, key, Str(name), 1, CA_DAYS, now, r.signature);
    ReadsWhatWasWritten(WithSignature(c, r.signature));
    PublicIsText(lib, r.privateKey);
    NewIsExplained(s.made, c, key, r.signature);
    forall e | e in t.ledger && e.publicKey == key
      ensures Explained(t.made, e)
    {
      assert e == Signed(key, SignedContent(c), r.signature);
    }
  }

  lemma {:induction false} FinishInitKeeps(lib: Library, s: State, name: Text, r: Fresh, now: int, stop: nat)
    requires lib.Lawful() && Inv(s) && s.disk.caCert.None? && stop >= 2
    requires NoSplitPair(name) && lib.privateType(r.privateKey) == Some(RSA) && !KeyUsed(s, lib.publicOf(r.privateKey))
    requires CreateCert(lib, name, lib.publicOf(r.privateKey), Str(name), 1, CA_DAYS, now).Ok?
    ensures var c := CreateCert(lib, name, lib.publicOf(r.privateKey), Str(name), 1, CA_DAYS, now).value;
            Inv(FinishInit(lib, s, c, r, stop).0)
  {
    hide SignedContent, WithSignature, CreateCert, PyText.Decode, PyText.Encode, Explained, IsNumber, ReadObject, LoadCrl;
    hide NextSerial, CrlText, SerialText, RootGood;
    var key := lib.publicOf(r.privateKey);
    var c := CreateCert(lib, name, key, Str(name), 1, CA_DAYS, now).value;
    SignedForm(lib, name, key, Str(name), 1, CA_DAYS, now, r.signature);
    AddRoot(s.made, Made(key, WithSignature(c, r.signature)));
    CrlReads([]);
    SerialReads(FIRST_SERIAL);
    var t := FinishInit(lib, s, c, r, stop).0;
    if stop > 2 {
      RootIsGood(lib, s, t, name, r, now);
    }
  }

  lemma {:induction false} InitKeeps(lib: Library, s: State, name: Text, password: Text, r: Fresh, now: int, stop: nat)
    requires lib.Lawful() && Inv(s) && Enabled(lib, s, DoInit(name, password, r, now, stop))
    ensures Inv(InitCa(lib, s, name, password, r, now, stop).0)
  {
    hide Inv, FinishInit, CreateCert, KeyStore.EncryptKey;
    if s.disk.caCert.None? {
      var storage := KeyStore.EncryptKey(lib, RSA, r.privateKey, password, r.salt, r.iv);
      if storage.Ok? && stop > 0 {
        var text := Indented.Pretty(Obj(storage.value));
        var keyed := s.(disk := s.disk.(key := Some(text)));
        KeyedKeeps(s, text);
        if CreateCert(lib, name, lib.publicOf(r.privateKey), Str(name), 1, CA_DAYS, now).Ok? && stop > 1 {
          FinishInitKeeps(lib, keyed, name, r, now, stop);
        }
      }
    }
  }

  /** Moving the counter on keeps everything, and takes the serial out of use. */
  lemma {:induction false} CountedKeeps(s: State, r: Ready)
    requires Inv(s) && s.disk.caCert.Some? && s.disk.serial.Some?
    requires ReadObject(s.disk.serial) == Ok(r.counter) && NextSerial(r.counter) == Ok(r.serial)
    ensures Inv(Counted(s, r)) && NextOf(Counted(s, r).disk.serial) == r.serial + 1 && NextOf(s.disk.serial) == r.serial
  {
    hide Explained, IsNumber, LoadCrl, ReadObject, Decimal.OfInt, Decimal.ToInt, FieldsFit, Put;
    var v := Num(Decimal.OfInt(r.serial + 1));
    IntegerIsNumber(r.serial + 1);
    Decimal.RoundTrip(r.serial + 1);
    PutNumberFits(r.counter, r.serial + 1);
    GetPut(r.counter, NEXT_SERIAL, v, NEXT_SERIAL);
    ReadsWhatWasWritten(Put(r.counter, NEXT_SERIAL, v));
  }

  lemma {:induction false} PutNumberFits(d: Fields, n: int)
    requires FieldsFit(Python, d)
    ensures FieldsFit(Python, Put(d, NEXT_SERIAL, Num(Decimal.OfInt(n))))
  {
    IntegerIsNumber(n);
    PutFits(d, NEXT_SERIAL, Num(Decimal.OfInt(n)));
  }

  /** Signing a certificate with the serial just taken. */
  lemma {:induction false} SignIssuedKeeps(lib: Library, s: State, c: Fields, privateKey: Bytes, signature: Bytes,
                                           serial: int)
    requires Inv(s) && s.disk.caCert.Some? && FieldsFit(Python, WithSignature(c, signature))
    requires SerialOf(WithSignature(c, signature)) == serial >= FIRST_SERIAL && NextOf(s.disk.serial) == serial + 1
    requires InRange(s.made, serial)
    ensures Inv(SignWith(lib, s, c, privateKey, signature).0)
  {
    hide Explained, IsNumber, LoadCrl, ReadObject, SignedContent, WithSignature, LedgerExplained, SerialOf;
    var (t, signed) := SignWith(lib, s, c, privateKey, signature);
    if signed.Ok? {
      AddIssued(s.made, serial, Made(lib.publicOf(privateKey), signed.value));
      SignWithKeeps(lib, s, c, privateKey, signature, RootKey(s.disk).value);
    }
  }

  lemma {:induction false} IssueKeeps(lib: Library, s: State, subject: Text, pem: Bytes, days: int, password: Text,
                                      signature: Bytes, now: int, stop: nat)
    requires lib.Lawful() && Inv(s) && NoSplitPair(subject)
    ensures Inv(IssueCertificate(lib, s, subject, pem, days, password, signature, now, stop).0)
  {
    hide SignWith, CreateCert, LoadCaKey, SerialOf, WithSignature, FieldsFit, Counted, LoadCrl, ReadObject, Ordered;
    var ready := PrepareIssue(lib, s.disk, password);
    if ready.Ok? {
      var r := ready.value;
      assert s.disk.serial.Some? by { ReadObjectNeedsFile(s.disk.serial); }
      CountedKeeps(s, r);
      var c := CreateCert(lib, subject, pem, r.issuer, r.serial, days, now);
      if stop >= 2 && c.Ok? {
        SignedForm(lib, subject, pem, r.issuer, r.serial, days, now, signature);
        CountedIsTheRest(s, r);
        SignIssuedKeeps(lib, Counted(s, r), c.value, r.privateKey, signature, r.serial);
      }
    }
  }

  lemma {:induction false} ReadObjectNeedsFile(file: Option<Text>)
    ensures ReadObject(file).Ok? ==> file.Some?
  {
  }

  lemma {:induction false} CountedIsTheRest(s: State, r: Ready)
    ensures Counted(s, r).made == s.made && Counted(s, r).disk.caCert == s.disk.caCert
  {
  }

  lemma {:induction false} RevokeKeeps(lib: Library, s: State, serial: int, password: Text, stop: nat)
    requires Inv(s)
    ensures Inv(RevokeCertificate(lib, s, serial, password, stop).0)
  {
    hide LoadCaKey, LoadCrl, ReadObject, CrlText, Explained, Ordered, InRange, NextSerial;
    var crl := LoadCrl(s.disk.crl);
    if crl.Ok? && s.disk.caCert.Some? && stop > 0 {
      CrlNeedsFile(s.disk.crl);
      AddedAscends(crl.value, serial);
      CrlReads(Added(crl.value, serial));
    }
  }

  lemma {:induction false} CrlNeedsFile(file: Option<Text>)
    ensures LoadCrl(file).Ok? ==> file.Some?
  {
  }

  /** A signature by a key the authority does not have. */
  lemma {:induction false} ElsewhereKeeps(s: State, entry: Signed)
    requires Inv(s) && forall i | 0 <= i < |s.made| :: s.made[i].caPublic != entry.publicKey
    ensures Inv(s.(ledger := s.ledger + {entry}))
  {
    hide ReadObject, LoadCrl, Explained, Ordered, InRange, NextSerial;
  }

  lemma {:induction false} StepKeeps(lib: Library, s: State, e: Event)
    requires lib.Lawful() && Inv(s) && Enabled(lib, s, e)
    ensures Inv(Step(lib, s, e))
  {
    hide Inv, InitCa, IssueCertificate, RevokeCertificate;
    match e
    case DoInit(name, password, r, now, stop) => InitKeeps(lib, s, name, password, r, now, stop);
    case DoIssue(subject, pem, days, password, signature, now, stop) =>
      IssueKeeps(lib, s, subject, pem, days, password, signature, now, stop);
    case DoRevoke(serial, password, stop) => RevokeKeeps(lib, s, serial, password, stop);
    case DoSignElsewhere(entry) => ElsewhereKeeps(s, entry);
  }

  lemma {:induction false} InvHolds(lib: Library, es: seq<Event>, n: nat)
    requires lib.Lawful() && Legal(lib, es) && n <= |es|
    ensures Inv(After(lib, es, n))
  {
    hide Inv, Step, Enabled;
    if n == 0 {
      EmptyIsGood();
    } else {
      InvHolds(lib, es, n - 1);
      StepKeeps(lib, After(lib, es, n - 1), es[n - 1]);
    }
  }

  lemma {:induction false} EmptyIsGood()
    ensures Inv(EMPTY)
  {
  }
}
