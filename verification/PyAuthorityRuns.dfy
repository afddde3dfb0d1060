/** What holds over every run of the authority, with any call stopping anywhere. */
module PyAuthorityRuns {
  import opened Prelude
  import opened Json
  import opened PyAuthority
  import opened PyAuthorityInvariants
  import opened PyCertificates
  import opened PyCrypto
  import opened PyLibraries
  import opened Signing
  import Base64
  import CanonicalJson
  import Decimal
  import Indented
  import KeyStore
  import PyText

  // --- Nothing signed is forgotten -------------------------------------------------------------------

  lemma {:induction false} StepExtends(lib: Library, s: State, e: Event)
    ensures s.made <= Step(lib, s, e).made && s.ledger <= Step(lib, s, e).ledger
  {
    hide KeyStore.EncryptKey, CreateCert, LoadCaKey, SignedContent, WithSignature, ReadObject, LoadCrl, NextSerial;
  }

  lemma {:induction false} RunExtends(lib: Library, es: seq<Event>, i: nat, n: nat)
    requires i <= n <= |es|
    ensures After(lib, es, i).made <= After(lib, es, n).made && After(lib, es, i).ledger <= After(lib, es, n).ledger
  {
    hide Step;
    if i < n {
      RunExtends(lib, es, i, n - 1);
      StepExtends(lib, After(lib, es, n - 1), es[n - 1]);
    }
  }

  // --- Serials ---------------------------------------------------------------------------------------

  /** What issue_certificate returned at step i. */
  function Issued(lib: Library, es: seq<Event>, i: nat): (c: Result<Fields, Failure>)
    requires i < |es| && es[i].DoIssue?
  {
    var e := es[i];
    IssueCertificate(lib, After(lib, es, i), e.subject, e.pem, e.days, e.password, e.signature, e.now, e.stop).1
  }

  lemma {:induction false} IssuedIsMade(lib: Library, s: State, subject: Text, pem: Bytes, days: int, password: Text,
                                        signature: Bytes, now: int, stop: nat)
    ensures var (t, c) := IssueCertificate(lib, s, subject, pem, days, password, signature, now, stop);
            c.Ok? ==> |t.made| == |s.made| + 1 && t.made[|s.made|].cert == c.value
  {
    hide CreateCert, LoadCaKey, SignedContent, WithSignature, ReadObject, NextSerial;
  }

  lemma {:induction false} IssueIsLast(lib: Library, es: seq<Event>, i: nat)
    requires i < |es| && es[i].DoIssue? && Issued(lib, es, i).Ok?
    ensures var s, t := After(lib, es, i), After(lib, es, i + 1);
            |t.made| == |s.made| + 1 && t.made[|s.made|].cert == Issued(lib, es, i).value
  {
    hide IssueCertificate;
    var e := es[i];
    IssuedIsMade(lib, After(lib, es, i), e.subject, e.pem, e.days, e.password, e.signature, e.now, e.stop);
  }

  /**
   * The serials of issued certificates start at 1000 and strictly increase, wherever calls failed or stopped in
   * between, and none is the authority's own 1.
   */
  lemma {:induction false} IssuedSerialsIncrease(lib: Library, es: seq<Event>, i: nat, j: nat)
    requires lib.Lawful() && Legal(lib, es) && i < j < |es| && es[i].DoIssue? && es[j].DoIssue?
    requires Issued(lib, es, i).Ok? && Issued(lib, es, j).Ok?
    ensures SerialOf(Issued(lib, es, i).value) < SerialOf(Issued(lib, es, j).value)
    ensures SerialOf(Issued(lib, es, i).value) >= FIRST_SERIAL
  {
    hide Issued, Step, Enabled, SerialOf, RootGood, CrlGood, SerialGood;
    InvHolds(lib, es, j + 1);
    IssueIsLast(lib, es, i);
    IssueIsLast(lib, es, j);
    RunExtends(lib, es, i + 1, j);
    IssuedIsNotOne(lib, es, i);
    var made, p, q := After(lib, es, j + 1).made, |After(lib, es, i).made|, |After(lib, es, j).made|;
    RunExtends(lib, es, j, j + 1);
    assert made[p] == After(lib, es, i + 1).made[p];
  }

  /**
   * The same of every certificate that was ever signed, in the order of signing, also by calls that then stopped: two
   * have the same serial only if both are a 1, from initialisations with different keys.
   */
  lemma {:induction false} SignedSerialsIncrease(lib: Library, es: seq<Event>, n: nat, i: nat, j: nat)
    requires lib.Lawful() && Legal(lib, es) && n <= |es| && i < j < |After(lib, es, n).made|
    ensures var made := After(lib, es, n).made;
            var first, second := SerialOf(made[i].cert), SerialOf(made[j].cert);
            && (first < second || (first == second == 1 && made[i].caPublic != made[j].caPublic))
            && (first == 1 || first >= FIRST_SERIAL) && (second == 1 || second >= FIRST_SERIAL)
  {
    hide After, Legal, SerialOf, RootGood, CrlGood;
    InvHolds(lib, es, n);
  }

  lemma {:induction false} IssuedIsNotOne(lib: Library, es: seq<Event>, i: nat)
    requires lib.Lawful() && Legal(lib, es) && i < |es| && es[i].DoIssue? && Issued(lib, es, i).Ok?
    ensures SerialOf(Issued(lib, es, i).value) >= FIRST_SERIAL
  {
    hide Step, Inv, WithSignature, CreateCert, FieldsFit, SerialOf;
    InvHolds(lib, es, i);
    assert Enabled(lib, After(lib, es, i), es[i]);
    var e, s := es[i], After(lib, es, i);
    IssuedFrom(lib, s, e.subject, e.pem, e.days, e.password, e.signature, e.now, e.stop);
    var r := PrepareIssue(lib, s.disk, e.password).value;
    PreparedSerial(lib, s, e.password);
    SignedForm(lib, e.subject, e.pem, r.issuer, r.serial, e.days, e.now, e.signature);
  }

  /** A certificate that comes back is the created one, signed. */
  lemma {:induction false} IssuedFrom(lib: Library, s: State, subject: Text, pem: Bytes, days: int, password: Text,
                                      signature: Bytes, now: int, stop: nat)
    requires IssueCertificate(lib, s, subject, pem, days, password, signature, now, stop).1.Ok?
    ensures PrepareIssue(lib, s.disk, password).Ok? && stop >= 3
    ensures var r := PrepareIssue(lib, s.disk, password).value;
            var c := CreateCert(lib, subject, pem, r.issuer, r.serial, days, now);
            && c.Ok? && lib.privateType(r.privateKey) == Some(RSA)
            && IssueCertificate(lib, s, subject, pem, days, password, signature, now, stop)
               == SignWith(lib, Counted(s, r), c.value, r.privateKey, signature)
            && IssueCertificate(lib, s, subject, pem, days, password, signature, now, stop).1
               == Ok(WithSignature(c.value, signature))
  {
    hide CreateCert, PrepareIssue, SignedContent, WithSignature, Counted;
  }

  lemma {:induction false} PreparedSerial(lib: Library, s: State, password: Text)
    requires Inv(s) && PrepareIssue(lib, s.disk, password).Ok?
    ensures var r := PrepareIssue(lib, s.disk, password).value;
            r.serial == NextOf(s.disk.serial) >= FIRST_SERIAL && Fits(Python, r.issuer) && s.disk.serial.Some?
  {
    hide LoadCaKey, ReadObject, NextSerial, Explained, Ordered, InRange, LoadCrl;
    assert s.disk.serial.Some? by { ReadObjectNeedsFile(s.disk.serial); }
  }

  /** The counter moves on exactly when the call gets past its checks, even if it then fails or stops. */
  lemma {:induction false} CounterMovesExactly(lib: Library, s: State, subject: Text, pem: Bytes, days: int,
                                               password: Text, signature: Bytes, now: int, stop: nat)
    requires Inv(s)
    ensures var t := IssueCertificate(lib, s, subject, pem, days, password, signature, now, stop).0;
            && SerialGood(t.disk.serial)
            && NextOf(t.disk.serial)
               == NextOf(s.disk.serial) + if PrepareIssue(lib, s.disk, password).Ok? && stop > 0 then 1 else 0
  {
    hide LoadCaKey, ReadObject, NextSerial, Explained, Ordered, InRange, LoadCrl, CreateCert, SignedContent;
    hide WithSignature, Counted, FieldsFit, RootGood;
    if PrepareIssue(lib, s.disk, password).Ok? {
      PreparedSerial(lib, s, password);
      CountedKeeps(s, PrepareIssue(lib, s.disk, password).value);
    }
  }

  // --- Validity --------------------------------------------------------------------------------------

  /** c is, but for the signature, a certificate this code signed with the authority's key. */
  predicate WasSigned(s: State, c: Fields, i: nat) {
    i < |s.made| && Some(s.made[i].caPublic) == RootKey(s.disk) && SameBody(c, s.made[i].cert)
  }

  lemma {:induction false} VerifyLooksUp(lib: Library, s: State, c: Fields, now: int)
    requires VerifyIssued(lib, s, c, now).Ok?
    ensures RootKey(s.disk).Some? && LoadCrl(s.disk.crl).Ok?
    ensures VerifyIssued(lib, s, c, now)
         == Ok(VerifyCertificate(lib, s.ledger, c, RootKey(s.disk).value, Some(LoadCrl(s.disk.crl).value), now))
  {
    hide LoadCrl, VerifyCertificate, PyText.Encode, ParseText;
  }

  /**
   * A certificate that verifies as valid is, field for field, one this authority signed; it is inside its dates,
   * and its serial is not on the revocation list.
   */
  lemma {:induction false} ValidWasSigned(lib: Library, es: seq<Event>, n: nat, c: Fields, now: int) returns (i: nat)
    requires lib.Lawful() && Legal(lib, es) && n <= |es| && FieldsFit(Python, c)
    requires VerifyIssued(lib, After(lib, es, n), c, now) == Ok(Answer.Valid)
    ensures WasSigned(After(lib, es, n), c, i)
    ensures InDates(lib, c, now)
    ensures var crl := LoadCrl(After(lib, es, n).disk.crl); crl.Ok? && Unlisted(lib, c, Some(crl.value))
  {
    hide Step, Enabled, VerifyIssued, VerifyCertificate, RootKey, LoadCrl, SignedContent, SameBody, ReadObject;
    hide InDates, Unlisted;
    var s := After(lib, es, n);
    InvHolds(lib, es, n);
    VerifyLooksUp(lib, s, c, now);
    var key, crl := RootKey(s.disk).value, LoadCrl(s.disk.crl).value;
    AnswersExactly(lib, s.ledger, c, key, Some(crl), now);
    assert s.disk.caCert.Some? by { RootNeedsFile(s.disk); }
    var e := Signed(key, SignedContent(c), BytesAt(c, SIGNATURE).value);
    assert Explained(s.made, e);
    i :| 0 <= i < |s.made| && s.made[i].caPublic == e.publicKey && SignedContent(s.made[i].cert) == e.data
         && BytesAt(s.made[i].cert, SIGNATURE) == Ok(e.signature);
    SignedContentBinds(c, s.made[i].cert);
  }

  lemma {:induction false} RootNeedsFile(disk: Disk)
    ensures RootKey(disk).Some? ==> disk.caCert.Some?
  {
  }

  /** Certificates equal but for the signature have the same serial field, when one of them is a number. */
  lemma {:induction false} SameBodySameSerial(a: Fields, b: Fields)
    requires FieldsFit(Python, a) && FieldsFit(Python, b) && SameBody(a, b)
    requires Get(b, SERIAL).Some? && Get(b, SERIAL).value.Num?
    ensures Get(a, SERIAL) == Get(b, SERIAL)
  {
    var f, g := Remove(a, SIGNATURE), Remove(b, SIGNATURE);
    NamesDiffer();
    assert NAMES[3] != NAMES[7];
    GetRemoved(a, SIGNATURE, SERIAL);
    GetRemoved(b, SIGNATURE, SERIAL);
    RemoveFits(a, SIGNATURE);
    CanonicalJson.FitsIsDistinct(Python, Obj(f));
    CanonicalJson.GetSame(f, g, SERIAL);
  }

  lemma {:induction false} SignedHasSerial(c: Fields)
    requires SerialOf(c) > 0
    ensures Get(c, SERIAL).Some? && Get(c, SERIAL).value.Num?
  {
  }

  /** Two valid certificates with the same serial agree on every field but the signature. */
  lemma {:induction false} SameSerialAgree(lib: Library, es: seq<Event>, n: nat, a: Fields, b: Fields, now: int,
                                           later: int)
    requires lib.Lawful() && Legal(lib, es) && n <= |es| && FieldsFit(Python, a) && FieldsFit(Python, b)
    requires VerifyIssued(lib, After(lib, es, n), a, now) == Ok(Answer.Valid)
    requires VerifyIssued(lib, After(lib, es, n), b, later) == Ok(Answer.Valid)
    requires Get(a, SERIAL) == Get(b, SERIAL)
    ensures SameBody(a, b)
  {
    hide Step, Enabled, VerifyIssued, RootKey, LoadCrl, ReadObject, RootGood, CrlGood, SerialGood;
    InvHolds(lib, es, n);
    var made := After(lib, es, n).made;
    var i := ValidWasSigned(lib, es, n, a, now);
    var j := ValidWasSigned(lib, es, n, b, later);
    SignedHasSerial(made[i].cert);
    SignedHasSerial(made[j].cert);
    SameBodySameSerial(a, made[i].cert);
    SameBodySameSerial(b, made[j].cert);
    assert SerialOf(made[i].cert) == SerialOf(made[j].cert);
    assert i == j;
    SameBodyMeets(a, b, made[i].cert);
  }

  lemma {:induction false} SameBodyMeets(a: Fields, b: Fields, c: Fields)
    requires FieldsFit(Python, a) && FieldsFit(Python, b) && FieldsFit(Python, c) && SameBody(a, c) && SameBody(b, c)
    ensures SameBody(a, b)
  {
    hide SignedContent;
    SignedContentBinds(a, c);
    SignedContentBinds(b, c);
    SignedContentBinds(a, b);
  }

  // --- Revocation ------------------------------------------------------------------------------------

  /** The serials on the list; none while there is no file. */
  function CrlOf(s: State): (crl: seq<int>) {
    match LoadCrl(s.disk.crl)
    case Ok(crl) => crl
    case Err(_) => []
  }

  /** revoke_certificate gets as far as its write: there are a certificate and a list, and the password opens the key. */
  predicate Revokes(lib: Library, s: State, e: Event)
    requires e.DoRevoke?
  {
    s.disk.caCert.Some? && s.disk.crl.Some? && LoadCaKey(lib, s.disk, e.password).Ok? && e.stop >= 1
  }

  predicate RevokedAt(lib: Library, es: seq<Event>, i: nat, k: int)
    requires i < |es|
  {
    es[i].DoRevoke? && es[i].serial == k && Revokes(lib, After(lib, es, i), es[i])
  }

  /** Some revoke_certificate before step n named k and got as far as its write. */
  ghost predicate WasRevoked(lib: Library, es: seq<Event>, n: nat, k: int)
    requires n <= |es|
  {
    exists i | 0 <= i < n :: RevokedAt(lib, es, i, k)
  }

  lemma {:induction false} OtherStepsKeepCrl(lib: Library, s: State, e: Event)
    requires lib.Lawful() && Inv(s) && !e.DoRevoke?
    ensures CrlOf(Step(lib, s, e)) == CrlOf(s)
  {
    hide KeyStore.EncryptKey, CreateCert, LoadCaKey, SignedContent, WithSignature, ReadObject, NextSerial, CrlText;
    hide LoadCrl, Explained, SerialText, Indented.Pretty, RevokeCertificate, RootGood, Ordered, InRange, SerialGood;
    CrlReads([]);
    CrlNeedsFile(s.disk.crl);
  }

  /** revoke_certificate succeeds exactly when it gets as far as its write, and then adds its serial to the list. */
  lemma {:induction false} RevokeAdds(lib: Library, s: State, e: Event)
    requires Inv(s) && e.DoRevoke?
    ensures var (t, done) := RevokeCertificate(lib, s, e.serial, e.password, e.stop);
            && (done.Ok? <==> Revokes(lib, s, e))
            && (forall k :: k in CrlOf(t) <==> k in CrlOf(s) || (Revokes(lib, s, e) && k == e.serial))
  {
    hide LoadCaKey, ReadObject, CrlText, LoadCrl, Explained, RootGood, Ordered, InRange, SerialGood;
    var crl := LoadCrl(s.disk.crl);
    CrlNeedsFile(s.disk.crl);
    if crl.Ok? {
      AddedAscends(crl.value, e.serial);
      CrlReads(Added(crl.value, e.serial));
    }
  }

  /** The list on disk holds exactly the serials of the revocations that got as far as their write, issued or not. */
  lemma {:induction false} CrlIsWhatWasRevoked(lib: Library, es: seq<Event>, n: nat, k: int)
    requires lib.Lawful() && Legal(lib, es) && n <= |es|
    ensures k in CrlOf(After(lib, es, n)) <==> WasRevoked(lib, es, n, k)
  {
    hide Step, Enabled, Inv, CrlOf, RevokeCertificate, Revokes;
    if n == 0 {
      EmptyCrl();
    } else {
      var s, e := After(lib, es, n - 1), es[n - 1];
      CrlIsWhatWasRevoked(lib, es, n - 1, k);
      InvHolds(lib, es, n - 1);
      assert WasRevoked(lib, es, n, k) <==> WasRevoked(lib, es, n - 1, k) || RevokedAt(lib, es, n - 1, k);
      if e.DoRevoke? {
        RevokeAdds(lib, s, e);
        StepIsRevoke(lib, s, e);
      } else {
        OtherStepsKeepCrl(lib, s, e);
      }
    }
  }

  lemma {:induction false} EmptyCrl()
    ensures CrlOf(EMPTY) == []
  {
  }

  lemma {:induction false} StepIsRevoke(lib: Library, s: State, e: Event)
    requires e.DoRevoke?
    ensures Step(lib, s, e) == RevokeCertificate(lib, s, e.serial, e.password, e.stop).0
  {
  }

  /** Once revoked, a serial never verifies again: no certificate that carries it is valid, or reaches its signature. */
  lemma {:induction false} RevokedIsNeverValid(lib: Library, es: seq<Event>, i: nat, n: nat, c: Fields, k: int,
                                               now: int)
    requires lib.Lawful() && Legal(lib, es) && i < n <= |es| && RevokedAt(lib, es, i, k)
    requires NumberIn(lib, c, SERIAL) == Some(k as real)
    requires VerifyIssued(lib, After(lib, es, n), c, now).Ok?
    ensures VerifyIssued(lib, After(lib, es, n), c, now).value in {Expired, NotYetValid, Revoked, Raises}
  {
    hide Step, Enabled, VerifyIssued, RootKey, LoadCrl, ReadObject, RevokedAt;
    var s := After(lib, es, n);
    CrlIsWhatWasRevoked(lib, es, n, k);
    VerifyLooksUp(lib, s, c, now);
    ListedIsRevoked(lib, s.ledger, c, RootKey(s.disk).value, LoadCrl(s.disk.crl).value, k, now);
  }

  lemma {:induction false} ListedIsRevoked(lib: Library, ledger: Ledger, c: Fields, caPublic: Bytes, crl: seq<int>,
                                           k: int, now: int)
    requires NumberIn(lib, c, SERIAL) == Some(k as real) && k in crl
    ensures VerifyCertificate(lib, ledger, c, caPublic, Some(crl), now) in {Expired, NotYetValid, Revoked, Raises}
  {
    hide VerifyCertificate, InDates, SignedBy;
    AnswersExactly(lib, ledger, c, caPublic, Some(crl), now);
  }

  // --- A completed initialisation --------------------------------------------------------------------

  /** Once there is a certificate, it and the key file stay, and the other files are not lost. */
  lemma {:induction false} StepKeepsFiles(lib: Library, s: State, e: Event)
    requires s.disk.caCert.Some?
    ensures var t := Step(lib, s, e);
            && t.disk.caCert == s.disk.caCert && t.disk.key == s.disk.key
            && (t.disk.serial.Some? <==> s.disk.serial.Some?) && (t.disk.crl.Some? <==> s.disk.crl.Some?)
  {
    hide KeyStore.EncryptKey, CreateCert, LoadCaKey, SignedContent, WithSignature, NextSerial, CrlText, LoadCrl, ReadObject;
    hide Indented.Pretty, SerialText;
    ReadObjectNeedsFile(s.disk.serial);
    CrlNeedsFile(s.disk.crl);
  }

  lemma {:induction false} FilesStay(lib: Library, es: seq<Event>, i: nat, n: nat)
    requires i <= n <= |es| && After(lib, es, i).disk.caCert.Some?
    ensures var s, t := After(lib, es, i).disk, After(lib, es, n).disk;
            t.caCert == s.caCert && t.key == s.key
            && (t.serial.Some? <==> s.serial.Some?) && (t.crl.Some? <==> s.crl.Some?)
  {
    hide Step;
    if i < n {
      FilesStay(lib, es, i, n - 1);
      StepKeepsFiles(lib, After(lib, es, n - 1), es[n - 1]);
    }
  }

  /** init_ca succeeded at step i. */
  predicate InitializedAt(lib: Library, es: seq<Event>, i: nat)
    requires i < |es|
  {
    es[i].DoInit? && InitCa(lib, After(lib, es, i), es[i].name, es[i].password, es[i].r, es[i].now, es[i].stop).1.Ok?
  }

  lemma {:induction false} InitGives(lib: Library, s: State, name: Text, password: Text, r: Fresh, now: int, stop: nat)
    requires lib.Lawful() && Enabled(lib, s, DoInit(name, password, r, now, stop))
    requires InitCa(lib, s, name, password, r, now, stop).1.Ok?
    ensures var t := InitCa(lib, s, name, password, r, now, stop).0;
            && t.disk.caCert.Some? && t.disk.serial.Some? && t.disk.crl.Some? && stop >= 5
            && LoadCaKey(lib, t.disk, password) == Ok(r.privateKey) && RootKey(t.disk) == Some(lib.publicOf(r.privateKey))
  {
    hide CreateCert, SignedContent, WithSignature, KeyStore.DecryptKey, KeyStore.Storage, ReadObject, CrlText, SerialText;
    hide RootKey, PyText.Decode, IsNumber;
    var t := InitCa(lib, s, name, password, r, now, stop).0;
    KeyStore.DecryptInvertsEncryptKey(lib, RSA, r.privateKey, password, r.salt, r.iv);
    var key := lib.pbkdf2(PyText.Encode(password).value, r.salt, KeyStore.ITERATIONS);
    var sealed := AesEncrypt(lib, r.privateKey, key, [], r.iv).value;
    KeyStore.StorageFits(RSA, r.salt, sealed);
    ReadsWhatWasWritten(KeyStore.Storage(RSA, r.salt, sealed));
    RootIsGood(lib, s, t, name, r, now);
  }

  /** What create_cert asks of its caller. */
  predicate Acceptable(lib: Library, subject: Text, pem: Bytes, days: int) {
    && !PyText.IsBlank(subject) && |subject| <= 256 && 1 <= days <= 3650
    && PyText.Decode(pem).Some? && lib.publicType(pem) in {Some(RSA), Some(ECC)}
  }

  /** After init_ca under the same password, a call that is not stopped issues exactly for acceptable requests. */
  lemma {:induction false} IssueSucceedsExactly(lib: Library, es: seq<Event>, i: nat, j: nat)
    requires lib.Lawful() && Legal(lib, es) && i < j < |es| && InitializedAt(lib, es, i)
    requires es[j].DoIssue? && es[j].password == es[i].password
    ensures Issued(lib, es, j).Ok? <==> Acceptable(lib, es[j].subject, es[j].pem, es[j].days) && es[j].stop >= 3
  {
    hide Inv, Step, Enabled, InitCa;
    Prepared(lib, es, i, j);
    var e, s := es[j], After(lib, es, j);
    var r := PrepareIssue(lib, s.disk, e.password).value;
    SucceedsWhenReady(lib, s, r, e.subject, e.pem, e.days, e.password, e.signature, e.now, e.stop);
  }

  lemma {:induction false} SucceedsWhenReady(lib: Library, s: State, r: Ready, subject: Text, pem: Bytes, days: int,
                                             password: Text, signature: Bytes, now: int, stop: nat)
    requires PrepareIssue(lib, s.disk, password) == Ok(r) && r.serial > 0 && lib.privateType(r.privateKey) == Some(RSA)
    ensures IssueCertificate(lib, s, subject, pem, days, password, signature, now, stop).1.Ok?
       <==> Acceptable(lib, subject, pem, days) && stop >= 3
  {
    hide PrepareIssue, PyText.Decode, SignedContent, WithSignature, Counted;
  }

  lemma {:induction false} Prepared(lib: Library, es: seq<Event>, i: nat, j: nat)
    requires lib.Lawful() && Legal(lib, es) && i < j < |es| && InitializedAt(lib, es, i)
    ensures var r := PrepareIssue(lib, After(lib, es, j).disk, es[i].password);
            && r.Ok? && r.value.serial >= FIRST_SERIAL && r.value.privateKey == es[i].r.privateKey
            && lib.privateType(r.value.privateKey) == Some(RSA) && Fits(Python, r.value.issuer)
    ensures RootKey(After(lib, es, j).disk) == Some(lib.publicOf(es[i].r.privateKey))
  {
    hide Step, Inv, Enabled, LoadCaKey, PrepareIssue, RootKey, InitCa, NextOf;
    InitializedGives(lib, es, i);
    FilesStay(lib, es, i + 1, j);
    var s, t := After(lib, es, i + 1), After(lib, es, j);
    LoadsSame(lib, s.disk, t.disk, es[i].password);
    InvHolds(lib, es, j);
    ReadyWhenFilesAre(lib, t, es[i].password);
    PreparedSerial(lib, t, es[i].password);
  }

  lemma {:induction false} InitializedGives(lib: Library, es: seq<Event>, i: nat)
    requires lib.Lawful() && Legal(lib, es) && i < |es| && InitializedAt(lib, es, i)
    ensures var t := After(lib, es, i + 1);
            && t.disk.caCert.Some? && t.disk.serial.Some? && t.disk.crl.Some?
            && LoadCaKey(lib, t.disk, es[i].password) == Ok(es[i].r.privateKey)
            && RootKey(t.disk) == Some(lib.publicOf(es[i].r.privateKey))
            && lib.privateType(es[i].r.privateKey) == Some(RSA)
  {
    hide InitCa, LoadCaKey, RootKey;
    var e := es[i];
    assert Enabled(lib, After(lib, es, i), e);
    InitGives(lib, After(lib, es, i), e.name, e.password, e.r, e.now, e.stop);
  }

  lemma {:induction false} LoadsSame(lib: Library, a: Disk, b: Disk, password: Text)
    requires a.caCert == b.caCert && a.key == b.key
    ensures LoadCaKey(lib, a, password) == LoadCaKey(lib, b, password) && RootKey(a) == RootKey(b)
  {
  }

  lemma {:induction false} ReadyWhenFilesAre(lib: Library, s: State, password: Text)
    requires Inv(s) && s.disk.caCert.Some? && s.disk.serial.Some? && LoadCaKey(lib, s.disk, password).Ok?
    ensures var r := PrepareIssue(lib, s.disk, password);
            r.Ok? && r.value.privateKey == LoadCaKey(lib, s.disk, password).value
  {
    hide LoadCaKey, ReadObject, NextSerial, Explained, Ordered, InRange, LoadCrl;
  }

  /**
   * A certificate issued under the password of init_ca verifies, in every later state and at any time, as exactly
   * its dates and the completed revocations say.
   */
  lemma {:induction false} IssuedVerifiesExactly(lib: Library, es: seq<Event>, i: nat, j: nat, n: nat, now: int)
    requires lib.Lawful() && Legal(lib, es) && i < j < n <= |es| && InitializedAt(lib, es, i)
    requires es[j].DoIssue? && es[j].password == es[i].password && Issued(lib, es, j).Ok?
    ensures var c := Issued(lib, es, j).value;
            VerifyIssued(lib, After(lib, es, n), c, now)
            == Ok(if now > es[j].now + es[j].days * DAY then Expired
                  else if now < es[j].now then NotYetValid
                  else if WasRevoked(lib, es, n, SerialOf(c)) then Revoked
                  else Answer.Valid)
  {
    hide Step, Enabled, Inv, RevokedAt, CreateCert, WithSignature, SignedContent, VerifyCertificate, PrepareIssue;
    hide RootKey, LoadCrl, FieldsFit, InitCa, SerialOf, InitializedAt, VerifyIssued, IssueCertificate;
    var e, s, t := es[j], After(lib, es, j), After(lib, es, n);
    Prepared(lib, es, i, j);
    var r := PrepareIssue(lib, s.disk, e.password).value;
    IssuedFrom(lib, s, e.subject, e.pem, e.days, e.password, e.signature, e.now, e.stop);
    assert NoSplitPair(e.subject) by { assert Enabled(lib, s, e); IssueNames(lib, s, e); }
    SignedForm(lib, e.subject, e.pem, r.issuer, r.serial, e.days, e.now, e.signature);
    var c := CreateCert(lib, e.subject, e.pem, r.issuer, r.serial, e.days, e.now).value;
    UsableLater(lib, es, i, n);
    CrlIsWhatWasRevoked(lib, es, n, r.serial);
    var crl := LoadCrl(t.disk.crl).value;
    assert Verifies(t.ledger, lib.publicOf(r.privateKey), SignedContent(c), e.signature) by {
      IssueRecords(lib, es, j, c, r);
      RunExtends(lib, es, j + 1, n);
    }
    SignedVerifiesExactly(lib, t.ledger, e.subject, e.pem, r.issuer, r.serial, e.days, e.now, e.signature,
                          lib.publicOf(r.privateKey), crl, now);
    VerifyIs(lib, t, WithSignature(c, e.signature), now);
  }

  lemma {:induction false} IssueNames(lib: Library, s: State, e: Event)
    requires Enabled(lib, s, e) && e.DoIssue?
    ensures NoSplitPair(e.subject)
  {
  }

  /** The signature of an issued certificate is on record from then on. */
  lemma {:induction false} IssueRecords(lib: Library, es: seq<Event>, j: nat, c: Fields, r: Ready)
    requires j < |es| && es[j].DoIssue? && Issued(lib, es, j).Ok?
    requires PrepareIssue(lib, After(lib, es, j).disk, es[j].password) == Ok(r)
    requires CreateCert(lib, es[j].subject, es[j].pem, r.issuer, r.serial, es[j].days, es[j].now) == Ok(c)
    ensures Verifies(After(lib, es, j + 1).ledger, lib.publicOf(r.privateKey), SignedContent(c), es[j].signature)
  {
    hide PrepareIssue, CreateCert, SignedContent, WithSignature, IssueCertificate, Counted;
    var e, s := es[j], After(lib, es, j);
    IssuedFrom(lib, s, e.subject, e.pem, e.days, e.password, e.signature, e.now, e.stop);
  }

  /** After init_ca the authority's key and list can always be looked up. */
  lemma {:induction false} UsableLater(lib: Library, es: seq<Event>, i: nat, n: nat)
    requires lib.Lawful() && Legal(lib, es) && i < n <= |es| && InitializedAt(lib, es, i)
    ensures RootKey(After(lib, es, n).disk) == Some(lib.publicOf(es[i].r.privateKey))
    ensures LoadCrl(After(lib, es, n).disk.crl).Ok?
  {
    hide Step, Enabled, InitCa, RootGood, LoadCrl, RootKey, LoadCaKey, SerialGood, Ordered, InRange, After, Legal;
    InitializedGives(lib, es, i);
    FilesStay(lib, es, i + 1, n);
    LoadsSame(lib, After(lib, es, i + 1).disk, After(lib, es, n).disk, es[i].password);
    InvHolds(lib, es, n);
  }

  lemma {:induction false} VerifyIs(lib: Library, s: State, c: Fields, now: int)
    requires RootKey(s.disk).Some? && LoadCrl(s.disk.crl).Ok?
    ensures VerifyIssued(lib, s, c, now)
         == Ok(VerifyCertificate(lib, s.ledger, c, RootKey(s.disk).value, Some(LoadCrl(s.disk.crl).value), now))
  {
    hide LoadCrl, VerifyCertificate, PyText.Encode, ParseText;
  }

  // --- What a completed initialisation leaves, and what follows from it ------------------------------

  /** init_ca writes its own certificate, an empty list, and a counter at 1000. */
  lemma {:induction false} InitWrites(lib: Library, s: State, name: Text, password: Text, r: Fresh, now: int, stop: nat)
    requires lib.FloatLaw() && NoSplitPair(name) && InitCa(lib, s, name, password, r, now, stop).1.Ok?
    ensures var t, c := InitCa(lib, s, name, password, r, now, stop).0.disk,
                        CreateCert(lib, name, lib.publicOf(r.privateKey), Str(name), 1, 3650, now);
            && c.Ok? && ReadObject(t.caCert) == Ok(WithSignature(c.value, r.signature)) && LoadCrl(t.crl) == Ok([])
            && ReadObject(t.serial).Ok? && NextSerial(ReadObject(t.serial).value) == Ok(1000)
  {
    hide CreateCert, SignedContent, WithSignature, KeyStore.EncryptKey, ReadObject, LoadCrl, CrlText, SerialText;
    hide NextSerial, FieldsFit, Indented.Pretty, PyText.Decode, Decimal.OfInt;
    var c := CreateCert(lib, name, lib.publicOf(r.privateKey), Str(name), 1, CA_DAYS, now).value;
    SignedForm(lib, name, lib.publicOf(r.privateKey), Str(name), 1, CA_DAYS, now, r.signature);
    ReadsWhatWasWritten(WithSignature(c, r.signature));
    CrlReads([]);
    SerialReads(FIRST_SERIAL);
  }

  /** Ever after, the authority's certificate names it, over its own key, for ten years of 365 days. */
  lemma {:induction false} RootSays(lib: Library, es: seq<Event>, i: nat, n: nat)
    requires lib.Lawful() && Legal(lib, es) && i < n <= |es| && InitializedAt(lib, es, i)
    ensures var e, root := es[i], ReadObject(After(lib, es, n).disk.caCert);
            && root.Ok?
            && Says(lib, root.value, e.name, lib.publicOf(e.r.privateKey), Str(e.name), 1, e.now, 3650, Literal("rsa"),
                    e.r.signature)
  {
    hide Step, Enabled, InitCa, CreateCert, WithSignature, ReadObject, LoadCrl, NextSerial, Says, PyText.Decode, RootKey;
    hide LoadCaKey;
    var e, s := es[i], After(lib, es, i);
    InitStarts(lib, es, i);
    InitializedGives(lib, es, i);
    FilesStay(lib, es, i + 1, n);
    SignedSays(lib, e.name, lib.publicOf(e.r.privateKey), Str(e.name), 1, 3650, e.now, e.r.signature);
    PublicIsText(lib, e.r.privateKey);
  }

  lemma {:induction false} InitStarts(lib: Library, es: seq<Event>, i: nat)
    requires lib.Lawful() && Legal(lib, es) && i < |es| && InitializedAt(lib, es, i)
    ensures var e, t := es[i], After(lib, es, i + 1).disk;
            var c := CreateCert(lib, e.name, lib.publicOf(e.r.privateKey), Str(e.name), 1, 3650, e.now);
            && c.Ok? && ReadObject(t.caCert) == Ok(WithSignature(c.value, e.r.signature)) && LoadCrl(t.crl) == Ok([])
            && ReadObject(t.serial).Ok? && NextSerial(ReadObject(t.serial).value) == Ok(1000)
  {
    hide InitCa, CreateCert, WithSignature, ReadObject, LoadCrl, NextSerial;
    var e := es[i];
    assert Enabled(lib, After(lib, es, i), e);
    InitWrites(lib, After(lib, es, i), e.name, e.password, e.r, e.now, e.stop);
  }

  /** The calls of issue_certificate from step m to step n that got past their checks. */
  function Taken(lib: Library, es: seq<Event>, m: nat, n: nat): (count: nat)
    requires n <= |es|
  {
    if n <= m then 0
    else
      var s, e := After(lib, es, n - 1), es[n - 1];
      Taken(lib, es, m, n - 1) + if e.DoIssue? && e.stop >= 1 && LoadCaKey(lib, s.disk, e.password).Ok? then 1 else 0
  }

  lemma {:induction false} OtherStepsKeepCounter(lib: Library, s: State, e: Event)
    requires s.disk.caCert.Some? && !e.DoIssue?
    ensures Step(lib, s, e).disk.serial == s.disk.serial
  {
    hide LoadCaKey, LoadCrl, ReadObject, CrlText;
  }

  /** One step of an initialised authority moves the counter by the serials it takes. */
  lemma {:induction false} CounterStep(lib: Library, s: State, e: Event)
    requires lib.Lawful() && Inv(s) && s.disk.caCert.Some? && s.disk.serial.Some?
    ensures SerialGood(s.disk.serial) && SerialGood(Step(lib, s, e).disk.serial)
    ensures NextOf(Step(lib, s, e).disk.serial) == NextOf(s.disk.serial)
         + if e.DoIssue? && e.stop >= 1 && LoadCaKey(lib, s.disk, e.password).Ok? then 1 else 0
  {
    hide Inv, LoadCaKey, IssueCertificate, SerialGood, InitCa, RevokeCertificate, NextOf, ReadObject, NextSerial;
    InvCounter(s);
    if e.DoIssue? {
      CounterMovesExactly(lib, s, e.subject, e.pem, e.days, e.password, e.signature, e.now, e.stop);
      if LoadCaKey(lib, s.disk, e.password).Ok? {
        ReadyWhenFilesAre(lib, s, e.password);
      }
    } else {
      OtherStepsKeepCounter(lib, s, e);
    }
  }

  lemma {:induction false} InvCounter(s: State)
    requires Inv(s)
    ensures SerialGood(s.disk.serial)
  {
  }

  /** The counter of an initialised authority is 1000 and the serials taken since. */
  lemma {:induction false} CounterIs(lib: Library, es: seq<Event>, i: nat, n: nat)
    requires lib.Lawful() && Legal(lib, es) && i < n <= |es| && InitializedAt(lib, es, i)
    ensures SerialGood(After(lib, es, n).disk.serial)
    ensures NextOf(After(lib, es, n).disk.serial) == 1000 + Taken(lib, es, i + 1, n)
  {
    hide Step, Enabled, Inv, LoadCaKey, InitCa, RootKey, InitializedAt, NextOf, SerialGood;
    InvHolds(lib, es, n);
    InvCounter(After(lib, es, n));
    if n == i + 1 {
      CounterStarts(lib, es, i);
    } else {
      CounterIs(lib, es, i, n - 1);
      InvHolds(lib, es, n - 1);
      InitializedGives(lib, es, i);
      FilesStay(lib, es, i + 1, n - 1);
      CounterStep(lib, After(lib, es, n - 1), es[n - 1]);
    }
  }

  lemma {:induction false} CounterStarts(lib: Library, es: seq<Event>, i: nat)
    requires lib.Lawful() && Legal(lib, es) && i < |es| && InitializedAt(lib, es, i)
    requires SerialGood(After(lib, es, i + 1).disk.serial)
    ensures NextOf(After(lib, es, i + 1).disk.serial) == 1000
  {
    hide Step, Enabled, InitCa, LoadCrl, ReadObject, NextSerial, CreateCert, WithSignature, FieldsFit;
    InitStarts(lib, es, i);
  }

  /**
   * An issued certificate says what was asked for, in the name given to init_ca, under the serial 1000 and the number
   * of serials taken since.
   */
  lemma {:induction false} IssuedSays(lib: Library, es: seq<Event>, i: nat, j: nat)
    requires lib.Lawful() && Legal(lib, es) && i < j < |es| && InitializedAt(lib, es, i)
    requires es[j].DoIssue? && Issued(lib, es, j).Ok?
    ensures var e := es[j];
            && PyText.Decode(e.pem).Some? && lib.publicType(e.pem).Some?
            && Says(lib, Issued(lib, es, j).value, e.subject, PyText.Decode(e.pem).value, Str(es[i].name),
                    1000 + Taken(lib, es, i + 1, j), e.now, e.days, lib.publicType(e.pem).value, e.signature)
  {
    hide Step, Enabled, Inv, InitCa, CreateCert, WithSignature, Says, PyText.Decode, IssueCertificate, Taken, Counted;
    hide LoadCaKey, NextOf, RootKey, ReadObject, NextSerial;
    var e, s := es[j], After(lib, es, j);
    IssuedFrom(lib, s, e.subject, e.pem, e.days, e.password, e.signature, e.now, e.stop);
    var r := PrepareIssue(lib, s.disk, e.password).value;
    InvHolds(lib, es, j);
    PreparedSerial(lib, s, e.password);
    CounterIs(lib, es, i, j);
    IssuerIs(lib, es, i, j, e.password);
    SignedSays(lib, e.subject, e.pem, r.issuer, r.serial, e.days, e.now, e.signature);
  }

  lemma {:induction false} IssuerIs(lib: Library, es: seq<Event>, i: nat, j: nat, password: Text)
    requires lib.Lawful() && Legal(lib, es) && i < j <= |es| && InitializedAt(lib, es, i)
    requires PrepareIssue(lib, After(lib, es, j).disk, password).Ok?
    ensures PrepareIssue(lib, After(lib, es, j).disk, password).value.issuer == Str(es[i].name)
  {
    hide Step, Enabled, InitCa, ReadObject, NextSerial, LoadCaKey, NumberIn, Decimal.OfInt, BytesAt;
    RootSays(lib, es, i, j);
  }

  /**
   * After init_ca a revocation succeeds exactly when its password opens the key file and it is not stopped; the one
   * given to init_ca does open it. Its serial is then on the list, beside those already there.
   */
  lemma {:induction false} RevokeSucceedsExactly(lib: Library, es: seq<Event>, i: nat, j: nat)
    requires lib.Lawful() && Legal(lib, es) && i < j < |es| && InitializedAt(lib, es, i) && es[j].DoRevoke?
    ensures var e, s, t := es[j], After(lib, es, j), After(lib, es, j + 1);
            var done := RevokeCertificate(lib, s, e.serial, e.password, e.stop).1;
            && (done.Ok? <==> LoadCaKey(lib, After(lib, es, i + 1).disk, e.password).Ok? && e.stop >= 1)
            && (e.password == es[i].password ==> (done.Ok? <==> e.stop >= 1))
            && (forall k :: k in CrlOf(t) <==> k in CrlOf(s) || (done.Ok? && k == e.serial))
  {
    hide Step, Enabled, Inv, InitCa, LoadCaKey, RevokeCertificate, CrlOf, RootKey;
    InitializedGives(lib, es, i);
    FilesStay(lib, es, i + 1, j);
    LoadsSame(lib, After(lib, es, i + 1).disk, After(lib, es, j).disk, es[j].password);
    InvHolds(lib, es, j);
    RevokeAdds(lib, After(lib, es, j), es[j]);
    StepIsRevoke(lib, After(lib, es, j), es[j]);
  }

  /** The list is empty after init_ca, so what is revoked afterwards is all that is ever on it. */
  lemma {:induction false} InitialListIsEmpty(lib: Library, es: seq<Event>, i: nat)
    requires lib.Lawful() && Legal(lib, es) && i < |es| && InitializedAt(lib, es, i)
    ensures LoadCrl(After(lib, es, i + 1).disk.crl) == Ok([]) && CrlOf(After(lib, es, i + 1)) == []
  {
    hide Step, Enabled, InitCa, LoadCrl, ReadObject, NextSerial, CreateCert;
    InitStarts(lib, es, i);
  }

  /**
   * Without a certificate every call but init_ca says so and changes nothing; with one init_ca does, and a password that
   * does not open the key file stops the calls that need it, with the reason it gives.
   */
  lemma {:induction false} Guards(lib: Library, s: State, e: Event, c: Fields, now: int)
    ensures s.disk.caCert.None? ==> VerifyIssued(lib, s, c, now) == Err(NotInitialized)
    ensures e.DoInit? ==>
              (s.disk.caCert.Some? <==>
               InitCa(lib, s, e.name, e.password, e.r, e.now, e.stop) == (s, Err(AlreadyInitialized)))
    ensures e.DoIssue? ==>
              var x := IssueCertificate(lib, s, e.subject, e.pem, e.days, e.password, e.signature, e.now, e.stop);
              var key := LoadCaKey(lib, s.disk, e.password);
              && (s.disk.caCert.None? ==> x == (s, Err(NotInitialized)))
              && (s.disk.caCert.Some? && key.Err? ==> x == (s, Err(key.error)))
    ensures e.DoRevoke? ==>
              var x := RevokeCertificate(lib, s, e.serial, e.password, e.stop);
              var key := LoadCaKey(lib, s.disk, e.password);
              && (s.disk.caCert.None? ==> x == (s, Err(NotInitialized)))
              && (s.disk.caCert.Some? && key.Err? ==> x == (s, Err(key.error)))
  {
    hide LoadCaKey, CreateCert, SignedContent, WithSignature, LoadCrl, PyText.Encode, PyText.Decode, VerifyCertificate;
    hide Indented.Pretty, CrlText, SerialText, Decimal.OfInt, Base64.Encode;
    if e.DoInit? && s.disk.caCert.None? {
      NeverAlready(lib, s, e);
    }
  }

  lemma {:induction false} NeverAlready(lib: Library, s: State, e: Event)
    requires e.DoInit? && s.disk.caCert.None?
    ensures InitCa(lib, s, e.name, e.password, e.r, e.now, e.stop).1 != Err(AlreadyInitialized)
  {
    hide SignedContent, WithSignature, PyText.Decode, Indented.Pretty, CrlText, SerialText, KeyStore.Storage;
  }

  // --- An interrupted initialisation -----------------------------------------------------------------

  /** There is a certificate, so init_ca is refused, but no counter, so nothing can be issued. */
  predicate Stuck(s: State) {
    s.disk.caCert.Some? && s.disk.serial.None?
  }

  lemma {:induction false} RootCreates(lib: Library, name: Text, privateKey: Bytes, now: int)
    requires lib.Lawful() && lib.privateType(privateKey) == Some(RSA) && !PyText.IsBlank(name) && |name| <= 256
    ensures CreateCert(lib, name, lib.publicOf(privateKey), Str(name), 1, CA_DAYS, now).Ok?
  {
    hide PyText.Decode;
    PublicIsText(lib, privateKey);
  }

  lemma {:induction false} InvNoFiles(s: State)
    requires Inv(s) && s.disk.caCert.None?
    ensures s.disk.serial.None? && s.disk.crl.None?
  {
  }

  /**
   * Stopping init_ca leaves the authority stuck exactly when it stops after the certificate is written and before
   * the counter is; stopping earlier lets it be called again.
   */
  lemma {:induction false} InterruptedInitIsStuckExactly(lib: Library, s: State, name: Text, password: Text, r: Fresh,
                                                         now: int, stop: nat)
    requires lib.Lawful() && Inv(s) && s.disk.caCert.None? && Enabled(lib, s, DoInit(name, password, r, now, stop))
    requires PyText.NoSurrogate(password) && !PyText.IsBlank(name) && |name| <= 256
    ensures var (t, done) := InitCa(lib, s, name, password, r, now, stop);
            && (Stuck(t) <==> 3 <= stop <= 4) && (t.disk.caCert.None? <==> stop <= 2) && (done.Ok? <==> stop >= 5)
            && (stop == 0 ==> t == s) && |t.made| == |s.made| + (if stop >= 2 then 1 else 0)
            && (t.disk.crl.Some? <==> stop >= 4) && (t.disk.serial.Some? <==> stop >= 5)
  {
    hide SignedContent, WithSignature, KeyStore.Storage, PyText.Decode, CrlText, SerialText, IsNumber, Inv, Base64.Encode;
    hide CreateCert, RootGood, Indented.Pretty;
    InvNoFiles(s);
    RootCreates(lib, name, r.privateKey, now);
    KeyStore.DecryptInvertsEncryptKey(lib, RSA, r.privateKey, password, r.salt, r.iv);
  }

  /** The key file is written first: from then on, stopped or not, it holds the new key under that password. */
  lemma {:induction false} KeyIsFirst(lib: Library, s: State, name: Text, password: Text, r: Fresh, now: int, stop: nat)
    requires lib.Lawful() && s.disk.caCert.None? && |r.iv| == 12 && PyText.NoSurrogate(password)
    ensures var t := InitCa(lib, s, name, password, r, now, stop).0;
            if stop == 0 then t.disk == s.disk else LoadCaKey(lib, t.disk, password) == Ok(r.privateKey)
  {
    hide CreateCert, SignedContent, WithSignature, KeyStore.DecryptKey, KeyStore.Storage, ReadObject, CrlText, SerialText;
    hide PyText.Decode, IsNumber;
    KeyStore.DecryptInvertsEncryptKey(lib, RSA, r.privateKey, password, r.salt, r.iv);
    var key := lib.pbkdf2(PyText.Encode(password).value, r.salt, KeyStore.ITERATIONS);
    var sealed := AesEncrypt(lib, r.privateKey, key, [], r.iv).value;
    KeyStore.StorageFits(RSA, r.salt, sealed);
    ReadsWhatWasWritten(KeyStore.Storage(RSA, r.salt, sealed));
  }

  /** Stuck is for ever: whatever is called later, init_ca and issue_certificate fail. */
  lemma {:induction false} StuckIsForever(lib: Library, es: seq<Event>, i: nat, n: nat)
    requires i <= n < |es| && Stuck(After(lib, es, i))
    ensures Stuck(After(lib, es, n)) && !InitializedAt(lib, es, n)
    ensures es[n].DoIssue? ==> !Issued(lib, es, n).Ok?
  {
    FilesStay(lib, es, i, n) by { hide Step; }
    if es[n].DoIssue? {
      hide IssueCertificate;
      var e := es[n];
      NoCounterNoIssue(lib, After(lib, es, n), e.subject, e.pem, e.days, e.password, e.signature, e.now, e.stop);
    }
  }

  lemma {:induction false} NoCounterNoIssue(lib: Library, s: State, subject: Text, pem: Bytes, days: int,
                                            password: Text, signature: Bytes, now: int, stop: nat)
    requires Stuck(s)
    ensures IssueCertificate(lib, s, subject, pem, days, password, signature, now, stop).1.Err?
  {
    hide LoadCaKey;
  }
}
